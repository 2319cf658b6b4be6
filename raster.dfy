/** Geometry of the flat, row-major buffers muEdge.c works on, and the
    specification of what an operator leaves in the destination buffer.

    The loops of every operator run `j` over [0, h-2] and `i` over [0, w-2];
    iteration (i, j) reads the window whose corner is `index = i + w*j` and
    writes `out[index + w + 1]`, the pixel at row j+1, column i+1. */
module Raster {
  import opened Pixels
  import opened Kernels

  /** Both loops of an operator run at least once. */
  predicate Runs(w: int, h: int)
  {
    2 <= w && 2 <= h
  }

  /** Length the source buffer must have for the loops to stay inside it:
      one more than the last byte read, w*h + w (or w*h + w - 1 for Laplace
      selection 1), which lies past the w*h bytes of the image itself. */
  function NeedLen(op: Operator, w: int, h: int): int
  {
    w * h + w + (if op == Laplace1 then 0 else 1)
  }

  /** The flat positions an operator writes: row in [1, h-1] and column in
      [1, w-1] of a w*h image. */
  predicate Interior(w: int, h: int, p: int)
  {
    Runs(w, h) && w < p < w * h && p % w != 0
  }

  /** The destination buffer after a successful call: every interior
      position holds the saturated response of the window whose corner is one
      row up and one column left of it; every other byte is as it was. */
  function Filtered(op: Operator, s: seq<Byte>, before: seq<Byte>, w: int, h: int): (r: seq<Byte>)
    requires Runs(w, h) ==> |s| >= NeedLen(op, w, h)
    ensures |r| == |before|
  {
    seq(|before|, p requires 0 <= p < |before| =>
          if Interior(w, h, p) then Saturate(Response(op, s, w, p - w - 1)) else before[p])
  }

  /** The destination buffer part-way through the loops: only the windows
      whose corner is below n have been written. */
  ghost function Scanned(op: Operator, s: seq<Byte>, before: seq<Byte>, w: int, h: int, n: int): (r: seq<Byte>)
    requires Runs(w, h) ==> |s| >= NeedLen(op, w, h)
    ensures |r| == |before|
  {
    seq(|before|, p requires 0 <= p < |before| =>
          if Interior(w, h, p) && p - w - 1 < n then Saturate(Response(op, s, w, p - w - 1)) else before[p])
  }

  /** Strictly increasing, so no position appears twice. */
  predicate Increasing(log: seq<int>)
  {
    forall a, b :: 0 <= a < b < |log| ==> log[a] < log[b]
  }

  /** The write log holds, once each and in increasing order, the interior
      positions whose window corner is below n. */
  ghost predicate LoggedUpTo(log: seq<int>, w: int, h: int, n: int)
  {
    Increasing(log) && forall p :: p in log <==> Interior(w, h, p) && p - w - 1 < n
  }

  /** The write log holds every interior position, once each. */
  ghost predicate WritesInterior(log: seq<int>, w: int, h: int)
  {
    Increasing(log) && forall p :: p in log <==> Interior(w, h, p)
  }

  lemma MulMono(a: int, b: int, w: int)
    requires 0 <= w && a <= b
    ensures a * w <= b * w
  {
    assert (b - a) * w >= 0;
  }

  /** Row r and column c of the flat position r*w + c are recovered by / and %. */
  lemma DivMod(w: int, r: int, c: int)
    requires 0 < w && 0 <= c < w
    ensures (r * w + c) / w == r && (r * w + c) % w == c
  {
    var p := r * w + c;
    var q, m := p / w, p % w;
    assert q * w + m == p;
    if q > r {
      MulMono(r + 1, q, w);
    } else if q < r {
      MulMono(q + 1, r, w);
    }
  }

  /** Interior is exactly "row in [1, h-1] and column in [1, w-1]": only row 0
      and column 0 of the image are never written. */
  lemma InteriorRowCol(w: int, h: int, r: int, c: int)
    requires Runs(w, h) && 0 <= r < h && 0 <= c < w
    ensures Interior(w, h, r * w + c) <==> 1 <= r && 1 <= c
  {
    DivMod(w, r, c);
    if 1 <= r {
      MulMono(1, r, w);
      MulMono(r, h - 1, w);
    }
  }

  /** Iteration (i, j) reads a window inside a buffer of NeedLen bytes and
      writes an interior position. */
  lemma WindowInBounds(op: Operator, w: int, h: int, i: int, j: int)
    requires Runs(w, h) && 0 <= i <= w - 2 && 0 <= j <= h - 2
    ensures 0 <= i + w * j
    ensures i + w * j + Reach(op, w) < NeedLen(op, w, h)
    ensures Interior(w, h, i + w * j + w + 1)
  {
    MulMono(0, j, w);
    MulMono(j + 1, h - 1, w);
    assert (j + 1) * w == w * j + w;
    InteriorRowCol(w, h, j + 1, i + 1);
  }

  /** Moving from the end of row j to the start of row j + 1 skips the
      corner w - 1 + w*j, whose write position (row j + 2, column 0) is not
      interior. */
  lemma RowEnd(w: int, h: int, j: int, p: int)
    requires Runs(w, h) && 0 <= j && Interior(w, h, p)
    ensures p - w - 1 < w - 1 + w * j <==> p - w - 1 < w * (j + 1)
  {
    assert w * (j + 1) == w * j + w;
    DivMod(w, j + 2, 0);
    assert (j + 2) * w == w - 1 + w * j + w + 1;
  }

  lemma ScanStart(op: Operator, s: seq<Byte>, before: seq<Byte>, w: int, h: int)
    requires Runs(w, h) ==> |s| >= NeedLen(op, w, h)
    ensures Scanned(op, s, before, w, h, 0) == before
  {
  }

  /** One iteration of the inner loop writes exactly one more position. */
  lemma ScanStep(op: Operator, s: seq<Byte>, before: seq<Byte>, w: int, h: int, i: int, j: int)
    requires Runs(w, h) && |s| >= NeedLen(op, w, h) && |before| >= w * h
    requires 0 <= i <= w - 2 && 0 <= j <= h - 2
    ensures InWindow(op, s, w, i + w * j) && i + w * j + w + 1 < |before|
    ensures Scanned(op, s, before, w, h, i + w * j + 1)
         == Scanned(op, s, before, w, h, i + w * j)[i + w * j + w + 1 := Saturate(Response(op, s, w, i + w * j))]
  {
    WindowInBounds(op, w, h, i, j);
  }

  lemma ScanRowEnd(op: Operator, s: seq<Byte>, before: seq<Byte>, w: int, h: int, i: int, j: int)
    requires Runs(w, h) ==> |s| >= NeedLen(op, w, h) && i == w - 1
    requires 0 <= j
    ensures Scanned(op, s, before, w, h, i + w * j) == Scanned(op, s, before, w, h, w * (j + 1))
  {
    if Runs(w, h) {
      forall p | 0 <= p < |before| && Interior(w, h, p)
        ensures p - w - 1 < w - 1 + w * j <==> p - w - 1 < w * (j + 1)
      {
        RowEnd(w, h, j, p);
      }
    }
  }

  /** After the last row every interior position has been written. */
  lemma ScanComplete(op: Operator, s: seq<Byte>, before: seq<Byte>, w: int, h: int, j: int)
    requires Runs(w, h) ==> |s| >= NeedLen(op, w, h) && j == h - 1
    ensures Scanned(op, s, before, w, h, w * j) == Filtered(op, s, before, w, h)
  {
    if Runs(w, h) {
      assert w * j == w * h - w;
    }
  }

  /** The positions the loops write for the corners below n, in loop
      order: corner c writes c + w + 1 unless it is in column w - 1, which
      the inner loop never reaches. Narrower images write nothing. */
  ghost function WriteTrace(w: int, n: int): seq<int>
    decreases n
  {
    if n <= 0 || w < 2 then []
    else WriteTrace(w, n - 1) + (if (n - 1) % w == w - 1 then [] else [n - 1 + w + 1])
  }

  lemma TraceStep(w: int, i: int, j: int)
    requires 2 <= w && 0 <= i <= w - 2 && 0 <= j
    ensures WriteTrace(w, i + w * j + 1) == WriteTrace(w, i + w * j) + [i + w * j + w + 1]
  {
    DivMod(w, j, i);
    assert j * w == w * j;
  }

  lemma TraceRowEnd(w: int, i: int, j: int)
    requires 0 <= j && (2 <= w ==> i == w - 1)
    ensures WriteTrace(w, i + w * j) == WriteTrace(w, w * (j + 1))
  {
    if 2 <= w {
      DivMod(w, j, w - 1);
      assert j * w == w * j;
      assert w * (j + 1) == i + w * j + 1;
    }
  }

  /** A window corner below w * (h - 1) splits into a row in [0, h - 2]
      and a column in [0, w - 1]. */
  lemma CornerRowCol(w: int, h: int, c: int) returns (row: int, col: int)
    requires Runs(w, h) && 0 <= c < w * (h - 1)
    ensures c == row * w + col && 0 <= row <= h - 2 && 0 <= col < w && col == c % w
  {
    row, col := c / w, c % w;
    if row > h - 2 {
      MulMono(h - 1, row, w);
    }
  }

  /** The window in row `row`, column `col` writes an interior position
      exactly when it is not in the last column. */
  lemma CornerTarget(w: int, h: int, row: int, col: int)
    requires Runs(w, h) && 0 <= row <= h - 2 && 0 <= col < w
    ensures Interior(w, h, row * w + col + w + 1) <==> col != w - 1
  {
    assert (row + 1) * w == row * w + w;
    if col != w - 1 {
      InteriorRowCol(w, h, row + 1, col + 1);
    } else {
      assert row * w + col + w + 1 == (row + 2) * w;
      if row + 2 < h {
        InteriorRowCol(w, h, row + 2, 0);
      }
    }
  }

  lemma IncreasingAppend(log: seq<int>, e: int)
    requires Increasing(log)
    requires forall p :: p in log ==> p < e
    ensures Increasing(log + [e])
  {
    forall a | 0 <= a < |log|
      ensures log[a] < e
    {
      assert log[a] in log;
    }
  }

  /** The trace holds, once each and in increasing order, exactly the
      interior positions whose window corner is below n. */
  lemma {:induction false} TraceLogged(w: int, h: int, n: int)
    requires Runs(w, h) && 0 <= n <= w * (h - 1)
    ensures LoggedUpTo(WriteTrace(w, n), w, h, n)
  {
    if n > 0 {
      TraceLogged(w, h, n - 1);
      var row, col := CornerRowCol(w, h, n - 1);
      CornerTarget(w, h, row, col);
      var log, e := WriteTrace(w, n - 1), n + w;
      var writes := (n - 1) % w != w - 1;
      if writes {
        IncreasingAppend(log, e);
      }
      forall p
        ensures p in WriteTrace(w, n) <==> Interior(w, h, p) && p - w - 1 < n
      {
        assert p in WriteTrace(w, n) <==> p in log || (writes && p == e);
      }
    }
  }

  /** At the end of the loops the trace is exactly the interior, once each. */
  lemma TraceComplete(w: int, h: int, j: int)
    requires 0 <= j && (Runs(w, h) ==> j == h - 1) && (h < 2 ==> j == 0)
    ensures WritesInterior(WriteTrace(w, w * j), w, h)
  {
    if Runs(w, h) {
      TraceLogged(w, h, w * j);
    }
  }

  /** The pixel at row r >= 1, column c >= 1 of the result is
      min(255, R(c-1, r-1)), R being the response of the window whose corner
      is at row r-1, column c-1. */
  lemma FilteredPixel(op: Operator, s: seq<Byte>, before: seq<Byte>, w: int, h: int, r: int, c: int)
    requires Runs(w, h) && |s| >= NeedLen(op, w, h) && |before| >= w * h
    requires 1 <= r < h && 1 <= c < w
    ensures r * w + c < |before|
    ensures InWindow(op, s, w, (r - 1) * w + (c - 1))
    ensures Filtered(op, s, before, w, h)[r * w + c] == Saturate(Response(op, s, w, (r - 1) * w + (c - 1)))
  {
    WindowInBounds(op, w, h, c - 1, r - 1);
    assert (r - 1) * w == w * (r - 1);
    assert r * w == w * (r - 1) + w;
  }

  /** Row 0, column 0 and everything past the w*h image keep their values. */
  lemma FilteredBorder(op: Operator, s: seq<Byte>, before: seq<Byte>, w: int, h: int, r: int, c: int)
    requires Runs(w, h) && |s| >= NeedLen(op, w, h) && |before| >= w * h
    requires 0 <= r < h && 0 <= c < w && (r == 0 || c == 0)
    ensures r * w + c < |before|
    ensures Filtered(op, s, before, w, h)[r * w + c] == before[r * w + c]
    ensures forall p :: w * h <= p < |before| ==> Filtered(op, s, before, w, h)[p] == before[p]
  {
    var p := r * w + c;
    InteriorRowCol(w, h, r, c);
    MulMono(r, h - 1, w);
    assert (h - 1) * w + w == w * h;
    assert !Interior(w, h, p) && p < |before|;
  }

  /** When every byte some window reads through a weighted cell holds one
      value, every written pixel is 0. Bytes no window reads are free. */
  lemma ConstantImage(op: Operator, s: seq<Byte>, before: seq<Byte>, w: int, h: int, v: Byte)
    requires Runs(w, h) ==> |s| >= NeedLen(op, w, h)
    requires forall p, m, k :: 0 <= p < |before| && Interior(w, h, p) && Uses(op, m) && 0 <= k < 9 && Cell(m, k) != 0 ==>
               0 <= p - w - 1 + Offset(w, k) < |s| && s[p - w - 1 + Offset(w, k)] == v
    ensures forall p :: 0 <= p < |before| && Interior(w, h, p) ==> Filtered(op, s, before, w, h)[p] == 0
  {
    forall p | 0 <= p < |before| && Interior(w, h, p)
      ensures Filtered(op, s, before, w, h)[p] == 0
    {
      var x := p - w - 1;
      OffsetsWithinReach(op, w);
      assert x + Reach(op, w) < NeedLen(op, w, h);
      ConstantResponse(op, s, w, x, v);
    }
  }

  /** The window of the last iteration (i = w-2, j = h-2) ends at
      NeedLen - 1 = w*h + w (w*h + w - 1 for Laplace selection 1). Index w*h
      is read too, so a source buffer of only w*h bytes is read beyond its
      end by NeedLen - w*h bytes: w + 1 (the whole row h and column 0 of
      row h + 1), or w for Laplace selection 1. */
  lemma LastWindowOverRead(op: Operator, w: int, h: int)
    requires Runs(w, h)
    ensures (w - 2) + w * (h - 2) + Reach(op, w) == NeedLen(op, w, h) - 1
    ensures NeedLen(op, w, h) - w * h == if op == Laplace1 then w else w + 1
    ensures op != Laplace1 ==> 0 + w * (h - 2) + Offset(w, 6) == w * h
    ensures op == Laplace1 ==> (w - 2) + w * (h - 2) + Offset(w, 5) == w * h
  {
    assert w * (h - 2) == w * h - 2 * w;
  }

  /** Every byte of the over-read, from w*h up to NeedLen - 1, is read
      through a weighted cell of some window the loops visit. */
  lemma OverReadBy(op: Operator, w: int, h: int, q: int) returns (i: int, j: int, m: Mask, k: int)
    requires Runs(w, h) && w * h <= q < NeedLen(op, w, h)
    ensures 0 <= i < w - 1 && 0 <= j < h - 1
    ensures Uses(op, m) && 0 <= k < 9 && Cell(m, k) != 0
    ensures i + w * j + Offset(w, k) == q
  {
    j := h - 2;
    assert w * j == w * h - 2 * w;
    // Mask 1 weights c5 and c7; the other masks chosen weight c6, c7, c8.
    match op {
    case Laplace1 =>
      m := LaplaceCross;
      assert m.c5 == 1 && m.c7 == 1;
    case Laplace2 =>
      m := LaplaceBox;
      assert m.c6 == 1 && m.c7 == 1 && m.c8 == 1;
    case Sobel =>
      m := SobelX;
      assert m.c6 == -1 && m.c7 == -2 && m.c8 == -1;
    case Prewitt =>
      m := PrewittX;
      assert m.c6 == -1 && m.c7 == -1 && m.c8 == -1;
    }
    if q == w * h {
      if op == Laplace1 {
        i, k := w - 2, 5;
      } else {
        i, k := 0, 6;
      }
    } else if q < w * h + w {
      i, k := q - w * h - 1, 7;
    } else {
      i, k := w - 2, 8;
    }
  }

  /** In the last iteration of a row (i = w-2) the right-hand column of the
      window (column i + 2 = w) is column 0 of the next row. */
  lemma ColumnWrap(w: int, h: int, j: int, r: int)
    requires Runs(w, h) && 0 <= j <= h - 2 && 0 <= r <= 2
    ensures (w - 2) + w * j + Offset(w, 3 * r + 2) == (j + r + 1) * w + 0
    ensures ((j + r + 1) * w + 0) % w == 0
  {
    assert (j + r + 1) * w == w * j + r * w + w;
    DivMod(w, j + r + 1, 0);
  }
}
