/** Describing system memory to later phases: the resource HOB that contains the firmware device is
    split so that exactly the device is marked non-present. */
module MemoryInitPei {
  import opened Words

  /** Resource attributes: EFI_RESOURCE_ATTRIBUTE_PRESENT and all others. */
  datatype Attributes = Attributes(Present: bool, Others: nat)

  const TESTED_MEMORY := Attributes(true, 0x3C06)

  /** A hand-off block: a resource descriptor, or any other kind. */
  datatype Hob =
    | Resource(SystemMemory: bool, Attribute: Attributes, PhysicalStart: nat, ResourceLength: nat)
    | OtherHob(kind: nat)

  function End(h: Hob): nat
    requires h.Resource?
  {
    h.PhysicalStart + h.ResourceLength
  }

  /** A system memory block contains the range. */
  predicate Contains(h: Hob, base: nat, top: nat) {
    h.Resource? && h.SystemMemory && h.PhysicalStart <= base && top <= End(h)
  }

  predicate FirstContaining(hobs: seq<Hob>, base: nat, top: nat, k: nat) {
    && k < |hobs| && Contains(hobs[k], base, top)
    && forall i :: 0 <= i < k ==> !Contains(hobs[i], base, top)
  }

  function Device(h: Hob, base: nat, size: nat): Hob
    requires h.Resource?
  {
    Resource(true, h.Attribute.(Present := false), base, size)
  }

  /** What becomes of the block that contains the firmware device: the block as it is rewritten, and
      the blocks that are added. */
  function Split(h: Hob, base: nat, size: nat, systemTop: nat): (p: (Hob, seq<Hob>))
    requires Contains(h, base, base + size)
  {
    var top := base + size;
    if base == h.PhysicalStart then
      if systemTop == top then (h.(Attribute := h.Attribute.(Present := false)), [])
      else (h.(PhysicalStart := h.PhysicalStart + size, ResourceLength := h.ResourceLength - size), [Device(h, base, size)])
    else
      (h.(ResourceLength := base - h.PhysicalStart),
       [Device(h, base, size)] + if top < End(h) then [Resource(true, h.Attribute, top, End(h) - top)] else [])
  }

  function SplitAt(hobs: seq<Hob>, k: nat, base: nat, size: nat, systemTop: nat): seq<Hob>
    requires k < |hobs| && Contains(hobs[k], base, base + size)
  {
    var p := Split(hobs[k], base, size, systemTop);
    hobs[k := p.0] + p.1
  }

  class HobList {
    var Hobs: seq<Hob>

    method BuildResourceDescriptorHob(attribute: Attributes, start: nat, length: nat)
      modifies this
      ensures Hobs == old(Hobs) + [Resource(true, attribute, start, length)]
    {
      Hobs := Hobs + [Resource(true, attribute, start, length)];
    }

    /** MemoryPeim. The block for system memory is added first, so a device inside system memory is
        always found, in block k. */
    method MemoryPeim(systemBase: u64, systemSize: u64, fdBase: u32, fdSize: u32) returns (found: bool, k: nat)
      modifies this
      ensures found <==> systemBase <= fdBase && fdBase + fdSize <= systemBase + systemSize
      ensures var hobs := old(Hobs) + [Resource(true, Attributes(true, 0x3C06), systemBase, systemSize)];
              if found then FirstContaining(hobs, fdBase, fdBase + fdSize, k)
                            && Hobs == SplitAt(hobs, k, fdBase, fdSize, systemBase + systemSize)
              else Hobs == hobs
    {
      BuildResourceDescriptorHob(TESTED_MEMORY, systemBase, systemSize);
      ghost var hobs := Hobs;
      var systemTop, fdTop := systemBase + systemSize, fdBase + fdSize;
      found, k := false, 0;
      if systemBase <= fdBase && fdTop <= systemTop {
        assert Contains(hobs[|hobs| - 1], fdBase, fdTop);
        k := FindContaining(Hobs, fdBase, fdTop);
        found := true;
        Carve(k, fdBase, fdSize, systemTop);
      }
    }

    /** Rewrites the block found and adds the others. */
    method Carve(k: nat, fdBase: nat, fdSize: nat, systemTop: nat)
      requires k < |Hobs| && Contains(Hobs[k], fdBase, fdBase + fdSize)
      modifies this
      ensures Hobs == SplitAt(old(Hobs), k, fdBase, fdSize, systemTop)
    {
      var h, fdTop := Hobs[k], fdBase + fdSize;
      var absent := h.Attribute.(Present := false);
      if fdBase == h.PhysicalStart {
        if systemTop == fdTop {
          Hobs := Hobs[k := h.(Attribute := absent)];
        } else {
          BuildResourceDescriptorHob(absent, fdBase, fdSize);
          Hobs := Hobs[k := h.(PhysicalStart := h.PhysicalStart + fdSize, ResourceLength := h.ResourceLength - fdSize)];
        }
      } else {
        BuildResourceDescriptorHob(absent, fdBase, fdSize);
        Hobs := Hobs[k := h.(ResourceLength := fdBase - h.PhysicalStart)];
        if fdTop < End(h) {
          BuildResourceDescriptorHob(h.Attribute, fdTop, End(h) - fdTop);
        }
      }
    }
  }

  /** The walk over the list. */
  method FindContaining(hobs: seq<Hob>, base: nat, top: nat) returns (k: nat)
    requires exists i :: 0 <= i < |hobs| && Contains(hobs[i], base, top)
    ensures FirstContaining(hobs, base, top, k)
  {
    k := 0;
    while k < |hobs| && !Contains(hobs[k], base, top)
      invariant k <= |hobs|
      invariant forall i :: 0 <= i < k ==> !Contains(hobs[i], base, top)
    {
      k := k + 1;
    }
  }

  // ---------------------------------------------------------------------
  // What the blocks say about each byte
  // ---------------------------------------------------------------------

  predicate Covers(h: Hob, x: nat) { h.Resource? && h.SystemMemory && h.PhysicalStart <= x < End(h) }

  predicate Offers(h: Hob, x: nat) { Covers(h, x) && h.Attribute.Present }

  /** How many blocks cover byte x, and how many offer it as present memory. */
  function CoverCount(hobs: seq<Hob>, x: nat): nat {
    if hobs == [] then 0 else (if Covers(hobs[0], x) then 1 else 0) + CoverCount(hobs[1..], x)
  }

  function OfferCount(hobs: seq<Hob>, x: nat): nat {
    if hobs == [] then 0 else (if Offers(hobs[0], x) then 1 else 0) + OfferCount(hobs[1..], x)
  }

  function Length(h: Hob): nat { if h.Resource? && h.SystemMemory then h.ResourceLength else 0 }

  function TotalLength(hobs: seq<Hob>): nat {
    if hobs == [] then 0 else Length(hobs[0]) + TotalLength(hobs[1..])
  }

  lemma {:induction false} Appended(a: seq<Hob>, b: seq<Hob>, x: nat)
    ensures CoverCount(a + b, x) == CoverCount(a, x) + CoverCount(b, x)
    ensures OfferCount(a + b, x) == OfferCount(a, x) + OfferCount(b, x)
    ensures TotalLength(a + b) == TotalLength(a) + TotalLength(b)
  {
    if a == [] {
      assert a + b == b;
    } else {
      Appended(a[1..], b, x);
      assert (a + b)[1..] == a[1..] + b;
    }
  }

  lemma {:induction false} Replaced(hobs: seq<Hob>, k: nat, h: Hob, x: nat)
    requires k < |hobs|
    ensures CoverCount(hobs[k := h], x) == CoverCount(hobs, x) - CoverCount([hobs[k]], x) + CoverCount([h], x)
    ensures OfferCount(hobs[k := h], x) == OfferCount(hobs, x) - OfferCount([hobs[k]], x) + OfferCount([h], x)
    ensures TotalLength(hobs[k := h]) == TotalLength(hobs) - TotalLength([hobs[k]]) + TotalLength([h])
  {
    var a, b := hobs[..k], hobs[k + 1..];
    assert hobs == a + ([hobs[k]] + b) && hobs[k := h] == a + ([h] + b);
    Appended(a, [hobs[k]] + b, x);
    Appended([hobs[k]], b, x);
    Appended(a, [h] + b, x);
    Appended([h], b, x);
  }

  /** The walk loses nothing: every byte is covered by as many blocks as before, and the blocks have the
      same total length. In particular disjoint blocks stay disjoint. */
  lemma SplitConserves(hobs: seq<Hob>, k: nat, base: nat, size: nat, systemTop: nat, x: nat)
    requires k < |hobs| && Contains(hobs[k], base, base + size)
    ensures CoverCount(SplitAt(hobs, k, base, size, systemTop), x) == CoverCount(hobs, x)
    ensures TotalLength(SplitAt(hobs, k, base, size, systemTop)) == TotalLength(hobs)
  {
    var p := Split(hobs[k], base, size, systemTop);
    Replaced(hobs, k, p.0, x);
    Appended(hobs[k := p.0], p.1, x);
    PiecesCover(hobs[k], base, size, systemTop, x);
  }

  lemma PiecesCover(h: Hob, base: nat, size: nat, systemTop: nat, x: nat)
    requires Contains(h, base, base + size)
    ensures var p := Split(h, base, size, systemTop);
            && CoverCount([p.0], x) + CoverCount(p.1, x) == CoverCount([h], x)
            && TotalLength([p.0]) + TotalLength(p.1) == TotalLength([h])
  {
    var p := Split(h, base, size, systemTop);
    if |p.1| == 2 {
      assert p.1 == [p.1[0]] + [p.1[1]];
      Appended([p.1[0]], [p.1[1]], x);
    }
  }

  /** The block reaches beyond a device at its start that ends at the top of system memory: then all
      of it is marked. */
  predicate MarksTooMuch(h: Hob, base: nat, size: nat, systemTop: nat)
    requires h.Resource?
  {
    h.Attribute.Present && base == h.PhysicalStart && systemTop == base + size < End(h)
  }

  predicate InDevice(base: nat, size: nat, x: nat) { base <= x < base + size }

  /** Byte x loses a present block exactly when it lies in the device and its block was present. */
  predicate OnlyDeviceMarked(hobs: seq<Hob>, k: nat, base: nat, size: nat, systemTop: nat, x: nat)
    requires k < |hobs| && Contains(hobs[k], base, base + size)
  {
    OfferCount(SplitAt(hobs, k, base, size, systemTop), x)
    == OfferCount(hobs, x) - if InDevice(base, size, x) && hobs[k].Attribute.Present then 1 else 0
  }

  lemma PiecesOffer(h: Hob, base: nat, size: nat, systemTop: nat, x: nat)
    requires Contains(h, base, base + size)
    ensures var p := Split(h, base, size, systemTop);
            var expected := OfferCount([h], x) - if InDevice(base, size, x) && h.Attribute.Present then 1 else 0;
            && (!MarksTooMuch(h, base, size, systemTop) ==> OfferCount([p.0], x) + OfferCount(p.1, x) == expected)
            && (MarksTooMuch(h, base, size, systemTop) && x == base + size
                ==> OfferCount([p.0], x) + OfferCount(p.1, x) != expected)
  {
    var p := Split(h, base, size, systemTop);
    if |p.1| == 2 {
      assert p.1 == [p.1[0]] + [p.1[1]];
      Appended([p.1[0]], [p.1[1]], x);
    }
  }

  lemma SplitOffers(hobs: seq<Hob>, k: nat, base: nat, size: nat, systemTop: nat, x: nat)
    requires k < |hobs| && Contains(hobs[k], base, base + size)
    ensures !MarksTooMuch(hobs[k], base, size, systemTop) ==> OnlyDeviceMarked(hobs, k, base, size, systemTop, x)
    ensures MarksTooMuch(hobs[k], base, size, systemTop) && x == base + size
            ==> !OnlyDeviceMarked(hobs, k, base, size, systemTop, x)
  {
    var p := Split(hobs[k], base, size, systemTop);
    Replaced(hobs, k, p.0, x);
    Appended(hobs[k := p.0], p.1, x);
    PiecesOffer(hobs[k], base, size, systemTop, x);
  }

  /** The bytes that become non-present are exactly those of the firmware device, if and only if the
      block found does not reach beyond a device at its start that ends at the top of system memory. */
  lemma OnlyDeviceIffExact(hobs: seq<Hob>, k: nat, base: nat, size: nat, systemTop: nat)
    requires k < |hobs| && Contains(hobs[k], base, base + size)
    ensures (forall x: nat :: OnlyDeviceMarked(hobs, k, base, size, systemTop, x))
            <==> !MarksTooMuch(hobs[k], base, size, systemTop)
  {
    if MarksTooMuch(hobs[k], base, size, systemTop) {
      SplitOffers(hobs, k, base, size, systemTop, base + size);
    } else {
      forall x: nat
        ensures OnlyDeviceMarked(hobs, k, base, size, systemTop, x)
      {
        SplitOffers(hobs, k, base, size, systemTop, x);
      }
    }
  }

  /** The attributes of the pieces at byte x: those of the block, except that the device, or all of a
      block that is marked too much, is not present. */
  lemma PieceAttributes(h: Hob, base: nat, size: nat, systemTop: nat, x: nat, i: nat, piece: Hob)
    requires Contains(h, base, base + size)
    requires var p := Split(h, base, size, systemTop); i <= |p.1| && piece == ([p.0] + p.1)[i]
    requires piece.Resource? && piece.PhysicalStart <= x < piece.PhysicalStart + piece.ResourceLength
    ensures piece.SystemMemory && h.PhysicalStart <= x < h.PhysicalStart + h.ResourceLength
    ensures piece.Attribute.Others == h.Attribute.Others
    ensures piece.Attribute.Present
            <==> h.Attribute.Present && !(base <= x < base + size) && !MarksTooMuch(h, base, size, systemTop)
  {
  }

  /** All other blocks keep their place and contents. */
  lemma OthersUntouched(hobs: seq<Hob>, k: nat, base: nat, size: nat, systemTop: nat, i: nat)
    requires k < |hobs| && Contains(hobs[k], base, base + size) && i < |hobs| && i != k
    ensures SplitAt(hobs, k, base, size, systemTop)[i] == hobs[i]
  {
  }

  /** Blocks inside system memory are never marked too much. */
  lemma InsideIsExact(h: Hob, base: nat, size: nat, systemTop: nat)
    requires Contains(h, base, base + size) && End(h) <= systemTop
    ensures !MarksTooMuch(h, base, size, systemTop)
  {
  }
}
