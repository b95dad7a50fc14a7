/** Painting rows of bytes into a buffer of scan lines: the meaning of every block transfer. */
module Frames {
  /** The buffer after writing `data` at `at`. */
  function Overwrite<T>(f: seq<T>, at: nat, data: seq<T>): (g: seq<T>)
    requires at + |data| <= |f|
    ensures |g| == |f|
    ensures forall k :: 0 <= k < |f| ==> g[k] == if at <= k < at + |data| then data[k - at] else f[k]
  {
    seq(|f|, k requires 0 <= k < |f| => if at <= k < at + |data| then data[k - at] else f[k])
  }

  lemma OverwriteTwice<T>(f: seq<T>, at: nat, a: seq<T>, b: seq<T>, c: seq<T>)
    requires at + |c| <= |f| && c == a + b
    ensures Overwrite(Overwrite(f, at, a), at + |a|, b) == Overwrite(f, at, c)
  {
  }

  /** A rectangle of Height rows of Width bytes, Left bytes into the scan lines from Top on. */
  datatype Rect = Rect(Stride: nat, Left: nat, Top: nat, Width: nat, Height: nat)

  /** n times s, as a sum: the place of scan line n, or of pixel n of a row. */
  function Times(n: nat, s: nat): nat { if n == 0 then 0 else Times(n - 1, s) + s }

  lemma {:induction false} TimesIsProduct(n: nat, s: nat)
    ensures Times(n, s) == n * s
  {
    if n > 0 {
      TimesIsProduct(n - 1, s);
      assert n * s == (n - 1) * s + s;
    }
  }

  lemma {:induction false} TimesAdds(a: nat, b: nat, s: nat)
    ensures Times(a + b, s) == Times(a, s) + Times(b, s)
  {
    if b > 0 {
      TimesAdds(a, b - 1, s);
    }
  }

  lemma TimesAscends(a: nat, b: nat, s: nat)
    requires a < b
    ensures Times(a, s) + s <= Times(b, s)
  {
    TimesAdds(a + 1, b - a - 1, s);
  }

  /** Byte offset of row r of a rectangle. */
  function Start(R: Rect, r: nat): nat { Times(R.Top + r, R.Stride) + R.Left }

  lemma RowsAscend(R: Rect, r: nat, q: nat)
    requires r < q
    ensures Start(R, r) + R.Stride <= Start(R, q)
  {
    TimesAscends(R.Top + r, R.Top + q, R.Stride);
  }

  /** The rows do not overlap one another, and the last of them ends inside the buffer. */
  ghost predicate Fits(R: Rect, size: nat) {
    && R.Width <= R.Stride
    && forall r :: 0 <= r < R.Height ==> Start(R, r) + R.Width <= size
  }

  lemma LastRowFits(R: Rect, size: nat)
    requires R.Width <= R.Stride && (R.Height > 0 ==> Start(R, R.Height - 1) + R.Width <= size)
    ensures Fits(R, size)
  {
    forall r | 0 <= r < R.Height
      ensures Start(R, r) + R.Width <= size
    {
      if r < R.Height - 1 {
        RowsAscend(R, r, R.Height - 1);
      }
    }
  }

  /** A rectangle inside its scan lines, on a screen of `lines` of them. */
  predicate OnScreen(R: Rect, lines: nat) { R.Left + R.Width <= R.Stride && R.Top + R.Height <= lines }

  lemma OnScreenFits(R: Rect, lines: nat)
    requires OnScreen(R, lines)
    ensures Fits(R, Times(lines, R.Stride))
  {
    if R.Height > 0 {
      TimesAscends(R.Top + R.Height - 1, lines, R.Stride);
    }
    LastRowFits(R, Times(lines, R.Stride));
  }

  /** One row of bytes for each row of the rectangle. */
  ghost predicate Fills<T>(R: Rect, rows: seq<seq<T>>) {
    |rows| == R.Height && forall r :: 0 <= r < |rows| ==> |rows[r]| == R.Width
  }

  /** The bytes of row r. */
  function RowOf<T>(f: seq<T>, R: Rect, r: nat): (row: seq<T>)
    requires Fits(R, |f|) && r < R.Height
    ensures |row| == R.Width
  {
    f[Start(R, r)..Start(R, r) + R.Width]
  }

  /** The rows of a rectangle, read at once. */
  function RowsOf<T>(f: seq<T>, R: Rect): (rows: seq<seq<T>>)
    requires Fits(R, |f|)
    ensures Fills(R, rows)
    ensures forall r :: 0 <= r < R.Height ==> rows[r] == RowOf(f, R, r)
  {
    seq(R.Height, r requires 0 <= r < R.Height => RowOf(f, R, r))
  }

  /** The buffer with the first n rows written in the rectangle. */
  function PaintTo<T>(f: seq<T>, R: Rect, rows: seq<seq<T>>, n: nat): (g: seq<T>)
    requires Fits(R, |f|) && Fills(R, rows) && n <= R.Height
    ensures |g| == |f|
  {
    if n == 0 then f else Overwrite(PaintTo(f, R, rows, n - 1), Start(R, n - 1), rows[n - 1])
  }

  /** The buffer with rows[r] written in row r of the rectangle. */
  function Paint<T>(f: seq<T>, R: Rect, rows: seq<seq<T>>): (g: seq<T>)
    requires Fits(R, |f|) && Fills(R, rows)
    ensures |g| == |f|
  {
    PaintTo(f, R, rows, R.Height)
  }

  /** Byte k lies in row r of the rectangle. */
  predicate InRow(R: Rect, r: nat, k: int) { Start(R, r) <= k < Start(R, r) + R.Width }

  /** Row r after an overwrite of another row q. */
  lemma OtherRow<T>(f: seq<T>, R: Rect, r: nat, q: nat, data: seq<T>)
    requires Fits(R, |f|) && r < R.Height && q < R.Height && r != q && |data| == R.Width
    ensures RowOf(Overwrite(f, Start(R, q), data), R, r) == RowOf(f, R, r)
  {
    if r < q {
      RowsAscend(R, r, q);
    } else {
      RowsAscend(R, q, r);
    }
  }

  /** Every row of the rectangle holds what was painted there. */
  lemma {:induction false} PaintedRow<T>(f: seq<T>, R: Rect, rows: seq<seq<T>>, n: nat, r: nat)
    requires Fits(R, |f|) && Fills(R, rows) && r < n <= R.Height
    ensures RowOf(PaintTo(f, R, rows, n), R, r) == rows[r]
  {
    if r < n - 1 {
      PaintedRow(f, R, rows, n - 1, r);
    }
    var g, h := PaintTo(f, R, rows, n - 1), PaintTo(f, R, rows, n);
    assert h == Overwrite(g, Start(R, n - 1), rows[n - 1]);
    RowAfter(g, h, R, rows, n - 1, r);
  }

  lemma RowAfter<T>(g: seq<T>, h: seq<T>, R: Rect, rows: seq<seq<T>>, q: nat, r: nat)
    requires Fits(R, |g|) && Fills(R, rows) && r <= q < R.Height && h == Overwrite(g, Start(R, q), rows[q])
    requires r < q ==> RowOf(g, R, r) == rows[r]
    ensures RowOf(h, R, r) == rows[r]
  {
    if r < q {
      OtherRow(g, R, r, q, rows[q]);
    }
  }

  /** Every byte outside the rectangle keeps its value. */
  lemma {:induction false} UnpaintedByte<T>(f: seq<T>, R: Rect, rows: seq<seq<T>>, n: nat, k: nat)
    requires Fits(R, |f|) && Fills(R, rows) && k < |f| && n <= R.Height
    requires forall r :: 0 <= r < n ==> !InRow(R, r, k)
    ensures PaintTo(f, R, rows, n)[k] == f[k]
  {
    if n > 0 {
      UnpaintedByte(f, R, rows, n - 1, k);
      assert !InRow(R, n - 1, k);
    }
  }

  /** A buffer that holds the rows in the rectangle and the old bytes elsewhere is the painted one. */
  lemma PaintUnique<T>(f: seq<T>, g: seq<T>, R: Rect, rows: seq<seq<T>>)
    requires Fits(R, |f|) && Fills(R, rows) && |g| == |f|
    requires forall r :: 0 <= r < R.Height ==> RowOf(g, R, r) == rows[r]
    requires forall k :: 0 <= k < |f| && (forall r :: 0 <= r < R.Height ==> !InRow(R, r, k)) ==> g[k] == f[k]
    ensures g == Paint(f, R, rows)
  {
    var p := Paint(f, R, rows);
    forall k | 0 <= k < |f|
      ensures g[k] == p[k]
    {
      if r :| 0 <= r < R.Height && InRow(R, r, k) {
        PaintedRow(f, R, rows, R.Height, r);
        SameByte(g, p, R, r, k);
      } else {
        UnpaintedByte(f, R, rows, R.Height, k);
      }
    }
  }

  lemma SameByte<T>(g: seq<T>, p: seq<T>, R: Rect, r: nat, k: nat)
    requires |g| == |p| && Fits(R, |g|) && r < R.Height && InRow(R, r, k)
    requires RowOf(g, R, r) == RowOf(p, R, r)
    ensures g[k] == p[k]
  {
    assert g[k] == RowOf(g, R, r)[k - Start(R, r)];
    assert p[k] == RowOf(p, R, r)[k - Start(R, r)];
  }

  // ---------------------------------------------------------------------
  // Copying a rectangle onto another of the same buffer, row by row
  // ---------------------------------------------------------------------

  /** Two rectangles of the same shape on the same screen. */
  predicate Alike(S: Rect, D: Rect, lines: nat) {
    && OnScreen(S, lines) && OnScreen(D, lines)
    && S.Stride == D.Stride && S.Width == D.Width && S.Height == D.Height
  }

  /** The row the copy handles in its i-th round: ascending when the destination is not below the
      source, descending otherwise. */
  function RowInRound(S: Rect, D: Rect, i: int): int {
    if D.Top <= S.Top then i else S.Height - i - 1
  }

  /** One round: a row of the source to its place in the destination. */
  function CopyRound<T>(g: seq<T>, S: Rect, D: Rect, i: nat): (h: seq<T>)
    requires Fits(S, |g|) && Fits(D, |g|) && S.Height == D.Height && S.Width == D.Width && i < S.Height
    ensures |h| == |g|
  {
    var r := RowInRound(S, D, i);
    Overwrite(g, Start(D, r), RowOf(g, S, r))
  }

  /** Row r has been handled in the first i rounds. */
  predicate Handled(S: Rect, D: Rect, i: int, r: int) {
    if D.Top <= S.Top then r < i else S.Height - i <= r
  }

  /** No row handled in the first i rounds contains byte k. */
  ghost predicate Untouched(S: Rect, D: Rect, i: int, k: int) {
    forall r: nat :: r < S.Height && Handled(S, D, i, r) ==> !InRow(D, r, k)
  }

  /** What i rounds leave: the handled rows hold the original source rows, and everything outside
      them is unchanged. */
  ghost predicate RoundsDone<T>(f: seq<T>, g: seq<T>, S: Rect, D: Rect, i: nat)
    requires Fits(S, |f|) && Fits(D, |f|) && S.Height == D.Height && |g| == |f|
  {
    && (forall r :: 0 <= r < S.Height && Handled(S, D, i, r) ==> RowOf(g, D, r) == RowOf(f, S, r))
    && (forall k :: 0 <= k < |f| && Untouched(S, D, i, k) ==> g[k] == f[k])
  }

  /** Rows of two different scan lines share no byte. */
  lemma LinesApart(S: Rect, D: Rect, lines: nat, s: nat, d: nat, k: int)
    requires Alike(S, D, lines) && S.Top + s != D.Top + d && InRow(S, s, k)
    ensures !InRow(D, d, k)
  {
    var ys, yd := S.Top + s, D.Top + d;
    if ys < yd {
      TimesAscends(ys, yd, S.Stride);
    } else {
      TimesAscends(yd, ys, S.Stride);
    }
  }

  /** The choice of direction keeps the source row of the next round intact until it is read. */
  lemma SourceIntact<T>(f: seq<T>, g: seq<T>, S: Rect, D: Rect, lines: nat, i: nat)
    requires Alike(S, D, lines) && Fits(S, |f|) && Fits(D, |f|) && |g| == |f| && i < S.Height
    requires RoundsDone(f, g, S, D, i)
    ensures RowOf(g, S, RowInRound(S, D, i)) == RowOf(f, S, RowInRound(S, D, i))
  {
    var next := RowInRound(S, D, i);
    forall k | Start(S, next) <= k < Start(S, next) + S.Width
      ensures g[k] == f[k]
    {
      forall r: nat | r < S.Height && Handled(S, D, i, r)
        ensures !InRow(D, r, k)
      {
        LinesApart(S, D, lines, next, r, k);
      }
      assert Untouched(S, D, i, k);
    }
  }

  lemma RoundKeeps<T>(f: seq<T>, g: seq<T>, S: Rect, D: Rect, i: nat)
    requires Fits(S, |f|) && Fits(D, |f|) && S.Height == D.Height && S.Width == D.Width && |g| == |f| && i < S.Height
    requires RoundsDone(f, g, S, D, i)
    ensures var r := RowInRound(S, D, i);
            RoundsDone(f, Overwrite(g, Start(D, r), RowOf(f, S, r)), S, D, i + 1)
  {
    var next := RowInRound(S, D, i);
    var data := RowOf(f, S, next);
    var g' := Overwrite(g, Start(D, next), data);
    forall r | 0 <= r < S.Height && Handled(S, D, i + 1, r)
      ensures RowOf(g', D, r) == RowOf(f, S, r)
    {
      if r != next {
        assert Handled(S, D, i, r);
        OtherRow(g, D, r, next, data);
      }
    }
    forall k | 0 <= k < |f| && Untouched(S, D, i + 1, k)
      ensures g'[k] == f[k]
    {
      assert Handled(S, D, i + 1, next) && !InRow(D, next, k);
      forall r: nat | r < S.Height && Handled(S, D, i, r)
        ensures !InRow(D, r, k)
      {
        assert Handled(S, D, i + 1, r);
      }
      assert Untouched(S, D, i, k);
    }
  }

  /** Every round keeps what the rounds have done. */
  lemma CopyRoundStep<T>(f: seq<T>, g: seq<T>, S: Rect, D: Rect, lines: nat, i: nat)
    requires Alike(S, D, lines) && Fits(S, |f|) && Fits(D, |f|) && |g| == |f| && i < S.Height
    requires RoundsDone(f, g, S, D, i)
    ensures RoundsDone(f, CopyRound(g, S, D, i), S, D, i + 1)
  {
    SourceIntact(f, g, S, D, lines, i);
    RoundKeeps(f, g, S, D, i);
  }

  lemma NoRoundsDone<T>(f: seq<T>, S: Rect, D: Rect)
    requires Fits(S, |f|) && Fits(D, |f|) && S.Height == D.Height
    ensures RoundsDone(f, f, S, D, 0)
  {
  }

  /** After the last round the copy is simultaneous, however the two rectangles overlap: the rows of
      the source as they were at the start are painted in the destination. */
  lemma CopyIsSimultaneous<T>(f: seq<T>, g: seq<T>, S: Rect, D: Rect)
    requires Fits(S, |f|) && Fits(D, |f|) && S.Height == D.Height && S.Width == D.Width && |g| == |f|
    requires RoundsDone(f, g, S, D, S.Height)
    ensures g == Paint(f, D, RowsOf(f, S))
  {
    forall r | 0 <= r < S.Height
      ensures RowOf(g, D, r) == RowsOf(f, S)[r]
    {
      assert Handled(S, D, S.Height, r);
    }
    PaintUnique(f, g, D, RowsOf(f, S));
  }
}
