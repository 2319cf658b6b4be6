/** The 3x3 masks of muEdge.c and the response each operator computes for
    one window of a row-major, single-channel buffer.

    A window is named by the flat index `x` of its top-left corner in a
    buffer of row width `w`; its cell k (0 <= k < 9, row-major) sits at
    `x + Offset(w, k)`. The masks are written down as the header comments
    of muEdge.c draw them, and the response is defined as their
    correlation with the window; the *Sum lemmas prove that the explicit
    sums the code computes, with its own index arithmetic, are those
    correlations. */
module Kernels {
  import opened Pixels

  /** A 3x3 mask, row by row: cell k is in row k / 3, column k % 3. */
  datatype Mask = Mask(c0: int, c1: int, c2: int, c3: int, c4: int, c5: int, c6: int, c7: int, c8: int)

  /** Laplace, selection 1. */
  const LaplaceCross := Mask(0, 1, 0,  1, -4, 1,  0, 1, 0)
  /** Laplace, selection 2. */
  const LaplaceBox := Mask(1, 1, 1,  1, -8, 1,  1, 1, 1)
  const SobelX := Mask(1, 2, 1,  0, 0, 0,  -1, -2, -1)
  const SobelY := Mask(1, 0, -1,  2, 0, -2,  1, 0, -1)
  const PrewittX := Mask(1, 1, 1,  0, 0, 0,  -1, -1, -1)
  const PrewittY := Mask(1, 0, -1,  1, 0, -1,  1, 0, -1)

  /** The weight of cell k. */
  function Cell(m: Mask, k: int): int
    requires 0 <= k < 9
  {
    match k
    case 0 => m.c0 case 1 => m.c1 case 2 => m.c2
    case 3 => m.c3 case 4 => m.c4 case 5 => m.c5
    case 6 => m.c6 case 7 => m.c7 case _ => m.c8
  }

  /** Flat distance from a window's corner to its cell k: row k / 3, column k % 3. */
  function Offset(w: int, k: int): int
  {
    if k < 3 then k else if k < 6 then w + (k - 3) else 2 * w + (k - 6)
  }

  /** Every cell that carries a non-zero weight lies inside `s`. */
  predicate Covers(m: Mask, s: seq<Byte>, w: int, x: int)
  {
    forall k :: 0 <= k < 9 && Cell(m, k) != 0 ==> 0 <= x + Offset(w, k) < |s|
  }

  /** Contribution of cell k; a cell of weight zero is not read. */
  function Term(m: Mask, s: seq<Byte>, w: int, x: int, k: nat): int
    requires k < 9 && Covers(m, s, w, x)
  {
    if Cell(m, k) == 0 then 0 else Cell(m, k) * s[x + Offset(w, k)]
  }

  /** Weighted sum of the first n cells. */
  function Dot(m: Mask, s: seq<Byte>, w: int, x: int, n: nat): int
    requires n <= 9 && Covers(m, s, w, x)
  {
    if n == 0 then 0 else Dot(m, s, w, x, n - 1) + Term(m, s, w, x, n - 1)
  }

  /** The whole weighted sum, cell by cell. */
  lemma DotUnfold(m: Mask, s: seq<Byte>, w: int, x: int)
    requires Covers(m, s, w, x)
    ensures Dot(m, s, w, x, 9) == Term(m, s, w, x, 0) + Term(m, s, w, x, 1) + Term(m, s, w, x, 2)
                                 + Term(m, s, w, x, 3) + Term(m, s, w, x, 4) + Term(m, s, w, x, 5)
                                 + Term(m, s, w, x, 6) + Term(m, s, w, x, 7) + Term(m, s, w, x, 8)
  {
    assert Dot(m, s, w, x, 1) == Dot(m, s, w, x, 0) + Term(m, s, w, x, 0);
    assert Dot(m, s, w, x, 2) == Dot(m, s, w, x, 1) + Term(m, s, w, x, 1);
    assert Dot(m, s, w, x, 3) == Dot(m, s, w, x, 2) + Term(m, s, w, x, 2);
    assert Dot(m, s, w, x, 4) == Dot(m, s, w, x, 3) + Term(m, s, w, x, 3);
    assert Dot(m, s, w, x, 5) == Dot(m, s, w, x, 4) + Term(m, s, w, x, 4);
    assert Dot(m, s, w, x, 6) == Dot(m, s, w, x, 5) + Term(m, s, w, x, 5);
    assert Dot(m, s, w, x, 7) == Dot(m, s, w, x, 6) + Term(m, s, w, x, 6);
    assert Dot(m, s, w, x, 8) == Dot(m, s, w, x, 7) + Term(m, s, w, x, 7);
  }

  /** The correlation of a mask with one window. */
  function Correlate(m: Mask, s: seq<Byte>, w: int, x: int): int
    requires Covers(m, s, w, x)
  {
    Dot(m, s, w, x, 9)
  }

  /** The four software operators of muEdge.c. */
  datatype Operator = Laplace1 | Laplace2 | Sobel | Prewitt

  /** The masks an operator correlates with. */
  predicate Uses(op: Operator, m: Mask)
  {
    match op
    case Laplace1 => m == LaplaceCross
    case Laplace2 => m == LaplaceBox
    case Sobel => m == SobelX || m == SobelY
    case Prewitt => m == PrewittX || m == PrewittY
  }

  /** Flat distance from the window's corner to the last byte the operator
      reads: the bottom-middle cell for Laplace selection 1, the bottom-right
      cell for the others. */
  function Reach(op: Operator, w: int): int
  {
    if op == Laplace1 then 2 * w + 1 else 2 * w + 2
  }

  /** The bytes the operator reads at corner x all lie in `s`. */
  predicate InWindow(op: Operator, s: seq<Byte>, w: int, x: int)
  {
    0 < w && 0 <= x && x + Reach(op, w) < |s|
  }

  /** Every cell an operator weights lies within [0, Reach] of the corner,
      and the cell at Reach itself is weighted, so Reach is the exact extent
      of the reads. */
  lemma OffsetsWithinReach(op: Operator, w: int)
    requires 0 < w
    ensures forall m, k :: Uses(op, m) && 0 <= k < 9 && Cell(m, k) != 0 ==> 0 <= Offset(w, k) <= Reach(op, w)
    ensures exists m, k :: Uses(op, m) && 0 <= k < 9 && Cell(m, k) != 0 && Offset(w, k) == Reach(op, w)
  {
    if op == Laplace1 {
      assert Uses(op, LaplaceCross) && Cell(LaplaceCross, 7) != 0 && Offset(w, 7) == Reach(op, w);
    } else {
      var m := match op case Laplace2 => LaplaceBox case Sobel => SobelX case Prewitt => PrewittX;
      assert Uses(op, m) && Cell(m, 8) != 0 && Offset(w, 8) == Reach(op, w);
    }
  }

  lemma WindowCovers(op: Operator, s: seq<Byte>, w: int, x: int, m: Mask)
    requires InWindow(op, s, w, x) && Uses(op, m)
    ensures Covers(m, s, w, x)
  {
    OffsetsWithinReach(op, w);
  }

  /** Laplace selection 1 is N + W + E + S - 4C around the window's centre
      C = s[x + w + 1], read at the offsets the code uses. */
  lemma LaplaceCrossSum(s: seq<Byte>, w: int, x: int)
    requires InWindow(Laplace1, s, w, x)
    ensures Covers(LaplaceCross, s, w, x)
    ensures Correlate(LaplaceCross, s, w, x)
         == (s[x + 1] as int) + s[x + w] + s[x + w + 2] + s[x + 2 * w + 1] - 4 * (s[x + w + 1] as int)
  {
    WindowCovers(Laplace1, s, w, x, LaplaceCross);
    DotUnfold(LaplaceCross, s, w, x);
  }

  /** Laplace selection 2 is the sum of the 8 neighbours minus 8C. */
  lemma LaplaceBoxSum(s: seq<Byte>, w: int, x: int)
    requires InWindow(Laplace2, s, w, x)
    ensures Covers(LaplaceBox, s, w, x)
    ensures Correlate(LaplaceBox, s, w, x)
         == (s[x] as int) + s[x + 1] + s[x + 2] + s[x + w] + s[x + w + 2]
            + s[x + 2 * w] + s[x + 2 * w + 1] + s[x + 2 * w + 2] - 8 * (s[x + w + 1] as int)
  {
    WindowCovers(Laplace2, s, w, x, LaplaceBox);
    DotUnfold(LaplaceBox, s, w, x);
  }

  /** Sobel: Gx is the top row (1, 2, 1) minus the bottom row, Gy the left
      column (1, 2, 1) minus the right column. */
  lemma SobelSums(s: seq<Byte>, w: int, x: int)
    requires InWindow(Sobel, s, w, x)
    ensures Covers(SobelX, s, w, x) && Covers(SobelY, s, w, x)
    ensures Correlate(SobelX, s, w, x)
         == ((s[x] as int) + 2 * (s[x + 1] as int) + s[x + 2])
            - ((s[x + 2 * w] as int) + 2 * (s[x + 2 * w + 1] as int) + s[x + 2 * w + 2])
    ensures Correlate(SobelY, s, w, x)
         == ((s[x] as int) + 2 * (s[x + w] as int) + s[x + 2 * w])
            - ((s[x + 2] as int) + 2 * (s[x + w + 2] as int) + s[x + 2 * w + 2])
  {
    WindowCovers(Sobel, s, w, x, SobelX);
    WindowCovers(Sobel, s, w, x, SobelY);
    DotUnfold(SobelX, s, w, x);
    DotUnfold(SobelY, s, w, x);
  }

  /** Prewitt: as Sobel with every weight 1. */
  lemma PrewittSums(s: seq<Byte>, w: int, x: int)
    requires InWindow(Prewitt, s, w, x)
    ensures Covers(PrewittX, s, w, x) && Covers(PrewittY, s, w, x)
    ensures Correlate(PrewittX, s, w, x)
         == ((s[x] as int) + s[x + 1] + s[x + 2]) - ((s[x + 2 * w] as int) + s[x + 2 * w + 1] + s[x + 2 * w + 2])
    ensures Correlate(PrewittY, s, w, x)
         == ((s[x] as int) + s[x + w] + s[x + 2 * w]) - ((s[x + 2] as int) + s[x + w + 2] + s[x + 2 * w + 2])
  {
    WindowCovers(Prewitt, s, w, x, PrewittX);
    WindowCovers(Prewitt, s, w, x, PrewittY);
    DotUnfold(PrewittX, s, w, x);
    DotUnfold(PrewittY, s, w, x);
  }

  /** Largest response the operator can produce on 8-bit samples. */
  function Limit(op: Operator): nat
  {
    match op
    case Laplace1 => 1020
    case Laplace2 => 2040
    case Sobel => 1530
    case Prewitt => 1020
  }

  /** The operator's response at the window with corner x: |mask . window|
      for Laplace, |Gx . window| + |Gy . window| for Sobel and Prewitt. It is
      at most Limit(op) <= 2040, so it fits MU_16S. */
  function Response(op: Operator, s: seq<Byte>, w: int, x: int): (r: nat)
    requires InWindow(op, s, w, x)
    ensures r <= Limit(op) <= 2040
  {
    match op
    case Laplace1 =>
      LaplaceCrossSum(s, w, x);
      Abs(Correlate(LaplaceCross, s, w, x))
    case Laplace2 =>
      LaplaceBoxSum(s, w, x);
      Abs(Correlate(LaplaceBox, s, w, x))
    case Sobel =>
      SobelSums(s, w, x);
      Abs(Correlate(SobelX, s, w, x)) + Abs(Correlate(SobelY, s, w, x))
    case Prewitt =>
      PrewittSums(s, w, x);
      Abs(Correlate(PrewittX, s, w, x)) + Abs(Correlate(PrewittY, s, w, x))
  }

  /** Each directional gradient of Sobel and Prewitt is bounded on its own:
      |Gx|, |Gy| <= 1020 for Sobel and <= 765 for Prewitt, well inside MU_32S. */
  lemma GradientBounds(op: Operator, m: Mask, s: seq<Byte>, w: int, x: int)
    requires op == Sobel || op == Prewitt
    requires Uses(op, m) && InWindow(op, s, w, x)
    ensures Covers(m, s, w, x)
    ensures Abs(Correlate(m, s, w, x)) <= if op == Sobel then 1020 else 765
  {
    if op == Sobel {
      SobelSums(s, w, x);
    } else {
      PrewittSums(s, w, x);
    }
  }

  /** A window whose read bytes all hold the same value has response 0:
      the weights of every mask sum to zero. Only the cells the operator's
      masks weight need to hold that value. */
  lemma ConstantResponse(op: Operator, s: seq<Byte>, w: int, x: int, v: Byte)
    requires InWindow(op, s, w, x)
    requires forall m, k :: Uses(op, m) && 0 <= k < 9 && Cell(m, k) != 0 ==>
               0 <= x + Offset(w, k) < |s| && s[x + Offset(w, k)] == v
    ensures Response(op, s, w, x) == 0
  {
    match op
    case Laplace1 =>
      assert Uses(op, LaplaceCross);
      assert Cell(LaplaceCross, 1) != 0 && Cell(LaplaceCross, 3) != 0 && Cell(LaplaceCross, 4) != 0;
      assert Cell(LaplaceCross, 5) != 0 && Cell(LaplaceCross, 7) != 0;
      LaplaceCrossSum(s, w, x);
    case Laplace2 =>
      AllCellsRead(op, LaplaceBox, s, w, x, v);
      assert Cell(LaplaceBox, 1) != 0 && Cell(LaplaceBox, 4) != 0 && Cell(LaplaceBox, 7) != 0;
      LaplaceBoxSum(s, w, x);
    case Sobel =>
      AllCellsRead(op, SobelY, s, w, x, v);
      assert Uses(op, SobelX) && Cell(SobelX, 1) != 0 && Cell(SobelX, 7) != 0;
      SobelSums(s, w, x);
    case Prewitt =>
      AllCellsRead(op, PrewittY, s, w, x, v);
      assert Uses(op, PrewittX) && Cell(PrewittX, 1) != 0 && Cell(PrewittX, 7) != 0;
      PrewittSums(s, w, x);
  }

  /** The corner and edge cells of the window hold v when mask m, which
      weights all of them, is one of the operator's masks. */
  lemma AllCellsRead(op: Operator, m: Mask, s: seq<Byte>, w: int, x: int, v: Byte)
    requires InWindow(op, s, w, x) && Uses(op, m)
    requires Cell(m, 0) != 0 && Cell(m, 2) != 0 && Cell(m, 3) != 0
    requires Cell(m, 5) != 0 && Cell(m, 6) != 0 && Cell(m, 8) != 0
    requires forall m, k :: Uses(op, m) && 0 <= k < 9 && Cell(m, k) != 0 ==>
               0 <= x + Offset(w, k) < |s| && s[x + Offset(w, k)] == v
    ensures x + 2 * w + 2 < |s|
    ensures s[x] == s[x + 2] == s[x + w] == s[x + w + 2] == s[x + 2 * w] == s[x + 2 * w + 2] == v
  {
    assert Offset(w, 0) == 0 && Offset(w, 2) == 2 && Offset(w, 3) == w;
    assert Offset(w, 5) == w + 2 && Offset(w, 6) == 2 * w && Offset(w, 8) == 2 * w + 2;
  }
}
