/** The byte writes under a block transfer: into the working buffer, and through it to the physical
    frame buffer. */
module VideoMemory {
  import opened Bits
  import opened Frames

  lemma OverwriteNext<T>(f: seq<T>, at: nat, data: seq<T>, i: nat)
    requires at + |data| <= |f| && i < |data|
    ensures Overwrite(f, at, data[..i])[at + i := data[i]] == Overwrite(f, at, data[..i + 1])
  {
  }

  /** Stores bytes one after the other. */
  method Put(a: array<byte>, at: nat, data: seq<byte>, ghost f: seq<byte>)
    requires a[..] == f && at + |data| <= |f|
    modifies a
    ensures a[..] == Overwrite(f, at, data)
  {
    for i := 0 to |data|
      invariant a[..] == Overwrite(f, at, data[..i])
    {
      OverwriteNext(f, at, data, i);
      a[at + i] := data[i];
    }
    assert data[..|data|] == data;
  }

  /** The byte to copy next has not been overwritten yet. */
  lemma SourceAhead<T>(f: seq<T>, destination: nat, source: nat, length: nat, i: nat)
    requires destination <= source && source + length <= |f| && i < length
    ensures Overwrite(f, destination, f[source..source + length][..i])[source + i] == f[source..source + length][i]
  {
  }

  lemma CopyPrevious<T>(f: seq<T>, g: seq<T>, destination: nat, source: nat, data: seq<T>, i: nat)
    requires source < destination && destination + |data| <= |f| && i < |data|
    requires data == f[source..source + |data|] && g == Overwrite(f, destination + i + 1, data[i + 1..])
    ensures g[source + i] == data[i]
    ensures g[destination + i := data[i]] == Overwrite(f, destination + i, data[i..])
  {
  }

  method CopyForward(a: array<byte>, destination: nat, source: nat, length: nat, ghost f: seq<byte>)
    requires a[..] == f && destination <= source && source + length <= |f|
    modifies a
    ensures a[..] == Overwrite(f, destination, f[source..source + length])
  {
    ghost var data := f[source..source + length];
    for i := 0 to length
      invariant a[..] == Overwrite(f, destination, data[..i])
    {
      OverwriteNext(f, destination, data, i);
      SourceAhead(f, destination, source, length, i);
      a[destination + i] := a[source + i];
    }
    assert data[..length] == data;
  }

  method CopyBackward(a: array<byte>, destination: nat, source: nat, length: nat, ghost f: seq<byte>)
    requires a[..] == f && source < destination && destination + length <= |f|
    modifies a
    ensures a[..] == Overwrite(f, destination, f[source..source + length])
  {
    ghost var data := f[source..source + length];
    for i := length downto 0
      invariant a[..] == Overwrite(f, destination + i, data[i..])
    {
      CopyPrevious(f, a[..], destination, source, data, i);
      a[destination + i] := a[source + i];
    }
  }

  /** CopyMem (section 6.5 of UEFI 2.4): the two ranges may overlap. */
  method CopyMem(a: array<byte>, destination: nat, source: nat, length: nat, ghost f: seq<byte>)
    requires a[..] == f && destination + length <= |f| && source + length <= |f|
    modifies a
    ensures a[..] == Overwrite(f, destination, f[source..source + length])
  {
    if source > destination {
      CopyForward(a, destination, source, length, f);
    } else if source < destination {
      CopyBackward(a, destination, source, length, f);
    } else {
      assert Overwrite(f, destination, f[source..source + length]) == f;
    }
  }

  /** Writes words of four bytes to video memory. */
  method PutWords(video: array<byte>, at: nat, data: seq<byte>, count: nat, ghost v: seq<byte>)
    requires video[..] == v && |data| == 4 * count && at + |data| <= |v|
    modifies video
    ensures video[..] == Overwrite(v, at, data)
  {
    for i := 0 to count
      invariant video[..] == Overwrite(v, at, data[..4 * i])
    {
      var four := data[4 * i..4 * i + 4];
      Put(video, at + 4 * i, four, Overwrite(v, at, data[..4 * i]));
      OverwriteTwice(v, at, data[..4 * i], four, data[..4 * (i + 1)]);
    }
    assert data[..4 * count] == data;
  }

  /** Words of four bytes, then the remaining bytes. */
  method PutBlocks(video: array<byte>, at: nat, data: seq<byte>, ghost v: seq<byte>)
    requires video[..] == v && at + |data| <= |v|
    modifies video
    ensures video[..] == Overwrite(v, at, data)
  {
    var copyBlockNum, remainingBytes := |data| / 4, |data| % 4;
    var end := 4 * copyBlockNum;
    if copyBlockNum != 0 {
      PutWords(video, at, data[..end], copyBlockNum, v);
    }
    ghost var w := Overwrite(v, at, data[..end]);
    assert video[..] == w;
    if remainingBytes != 0 {
      Put(video, at + end, data[end..], w);
    }
    assert video[..] == Overwrite(w, at + end, data[end..]);
    OverwriteTwice(v, at, data[..end], data[end..], data);
  }

  /** Bytes up to the first aligned address of the working buffer, then the blocks. */
  method PutAligned(video: array<byte>, address: nat, at: nat, data: seq<byte>, ghost v: seq<byte>)
    requires video[..] == v && at + |data| <= |v|
    modifies video
    ensures video[..] == Overwrite(v, at, data)
  {
    if |data| < 4 {
      Put(video, at, data, v);
    } else {
      var unalignedBytes := (4 - address % 4) % 4;
      if unalignedBytes != 0 {
        Put(video, at, data[..unalignedBytes], v);
      }
      ghost var w := Overwrite(v, at, data[..unalignedBytes]);
      assert video[..] == w;
      PutBlocks(video, at + unalignedBytes, data[unalignedBytes..], w);
      OverwriteTwice(v, at, data[..unalignedBytes], data[unalignedBytes..], data);
    }
  }

  /** Copies a run of the working buffer to the physical frame buffer. For every alignment of the
      working buffer this is one copy of all the bytes. */
  method CopyVideoBuffer(buffer: array<byte>, bufferAddress: nat, offset: nat, video: array<byte>, memAddress: nat,
                         destinationX: nat, destinationY: nat, totalBytes: nat, pixelWidth: nat,
                         bytesPerScanLine: nat, ghost to: nat, ghost v: seq<byte>)
    requires buffer != video && video[..] == v && offset + totalBytes <= buffer.Length
    requires to == memAddress + Times(destinationY, bytesPerScanLine) + Times(destinationX, pixelWidth) && to + totalBytes <= |v|
    modifies video
    ensures video[..] == Overwrite(v, to, buffer[offset..offset + totalBytes])
  {
    TimesIsProduct(destinationY, bytesPerScanLine);
    TimesIsProduct(destinationX, pixelWidth);
    var frameBufferAddr := memAddress + destinationY * bytesPerScanLine + destinationX * pixelWidth;
    PutAligned(video, bufferAddress + offset, frameBufferAddr, buffer[offset..offset + totalBytes], v);
  }

  // ---------------------------------------------------------------------
  // The frame inside video memory
  // ---------------------------------------------------------------------

  /** The frame that starts at `base` holds exactly the bytes of the working buffer. */
  predicate Mirrors(v: seq<byte>, base: nat, f: seq<byte>) {
    base + |f| <= |v| && v[base..base + |f|] == f
  }

  lemma MirrorIsOverwrite(v: seq<byte>, base: nat, f: seq<byte>)
    requires Mirrors(v, base, f)
    ensures Overwrite(v, base, f) == v
  {
  }

  /** Writing inside the frame is writing the frame with the bytes changed. */
  lemma OverwriteInFrame<T>(v: seq<T>, base: nat, f: seq<T>, at: nat, data: seq<T>)
    requires base + |f| <= |v| && at + |data| <= |f|
    ensures Overwrite(Overwrite(v, base, f), base + at, data) == Overwrite(v, base, Overwrite(f, at, data))
  {
  }
}
