/** The operators of muEdge.c: muLaplace, muSobel, muPrewitt and the muCanny
    stub, each a validation prologue of early returns followed by a nested
    row/column loop that writes into the caller's destination buffer. */
module Edge {
  import opened Pixels
  import opened Raster
  import Kernels

  /** muImage_t, reduced to the fields the operators read. `data` is the
      caller-owned `imagedata` buffer, flat and row-major. */
  datatype Image = Image(width: int, height: int, channels: int, depth: int, data: array<Byte>)

  /** A muError_t code other than MU_ERR_SUCCESS, which is 0: the callers
      test `if (ret)`, so a zero code would read as success. */
  type ErrorCode = c: int | c != 0 witness 1

  /** muError_t: MU_ERR_SUCCESS, MU_ERR_NOT_SUPPORT, and any other error the
      depth check may report. */
  datatype Status = Success | NotSupport | Other(code: ErrorCode)

  /** muCheckDepth(4, src, MU_IMG_DEPTH_8U, dst, MU_IMG_DEPTH_8U), seen as a
      status computed from the depths of the source and the destination. */
  type DepthCheck = (int, int) -> Status

  /** The shared validation prologue: the depth check's status if it is not
      success, otherwise MU_ERR_NOT_SUPPORT unless both images have one
      channel. */
  function Gate(checkDepth: DepthCheck, src: Image, dst: Image): (r: Status)
    ensures r == Success <==> checkDepth(src.depth, dst.depth) == Success && src.channels == 1 && dst.channels == 1
    ensures checkDepth(src.depth, dst.depth) != Success ==> r == checkDepth(src.depth, dst.depth)
    ensures checkDepth(src.depth, dst.depth) == Success && r != Success ==> r == NotSupport
  {
    var depth := checkDepth(src.depth, dst.depth);
    if depth != Success then depth
    else if src.channels != 1 || dst.channels != 1 then NotSupport
    else Success
  }

  /** When the loops run, the source holds every byte operator `op` reads
      (W*(H+1) + 1 bytes, W*(H+1) for Laplace selection 1) and the
      destination every byte it writes (W*H), W and H being the source's
      width and height. */
  predicate Fits(op: Kernels.Operator, src: Image, dst: Image)
  {
    Runs(src.width, src.height) ==>
      src.data.Length >= NeedLen(op, src.width, src.height) && dst.data.Length >= src.width * src.height
  }

  /** The loop body of muLaplace with selection 1: the 4-neighbour response
      of the window at `index`, held in a MU_16S and saturated. */
  method LaplaceCrossPixel(input: array<Byte>, width: int, index: int) returns (temp: Byte)
    requires Kernels.InWindow(Kernels.Laplace1, input[..], width, index)
    ensures temp == Saturate(Kernels.Response(Kernels.Laplace1, input[..], width, index))
  {
    Kernels.LaplaceCrossSum(input[..], width, index);
    var t: Int16 := Abs((input[index + 1] as int) + input[index + width] + input[index + width + 2]
                        + input[index + width * 2 + 1] - (input[index + width + 1] as int) * 4);
    t := if t > 255 then 255 else t;
    temp := t;
  }

  /** The loop body of muLaplace with selection 2: the 8-neighbour response. */
  method LaplaceBoxPixel(input: array<Byte>, width: int, index: int) returns (temp: Byte)
    requires Kernels.InWindow(Kernels.Laplace2, input[..], width, index)
    ensures temp == Saturate(Kernels.Response(Kernels.Laplace2, input[..], width, index))
  {
    Kernels.LaplaceBoxSum(input[..], width, index);
    var t: Int16 := Abs((input[index] as int) + input[index + 1] + input[index + 2] + input[index + width]
                        + input[index + width + 2] + input[index + width * 2] + input[index + width * 2 + 1]
                        + input[index + width * 2 + 2] - (input[index + width + 1] as int) * 8);
    t := if t > 255 then 255 else t;
    temp := t;
  }

  /** The loop body of muSobel: the two gradients in MU_32S, the sum of
      their magnitudes in a MU_16S, clamped to [0, 255]. The lower clamp
      never fires, since the sum of two magnitudes is never negative. */
  method SobelPixel(input: array<Byte>, width: int, index: int) returns (temp: Byte)
    requires Kernels.InWindow(Kernels.Sobel, input[..], width, index)
    ensures temp == Saturate(Kernels.Response(Kernels.Sobel, input[..], width, index))
  {
    Kernels.SobelSums(input[..], width, index);
    var gx: Int32 := ((input[index] as int) + (input[index + 1] as int) * 2 + input[index + 2])
                   - ((input[index + width * 2] as int) + (input[index + width * 2 + 1] as int) * 2
                      + input[index + width * 2 + 2]);
    var gy: Int32 := ((input[index] as int) + (input[index + width] as int) * 2 + input[index + width * 2])
                   - ((input[index + 2] as int) + (input[index + width + 2] as int) * 2
                      + input[index + width * 2 + 2]);
    var t: Int16 := Abs(gx) + Abs(gy);
    temp := Clamp(t);
  }

  /** The loop body of muPrewitt, shaped like that of muSobel. */
  method PrewittPixel(input: array<Byte>, width: int, index: int) returns (temp: Byte)
    requires Kernels.InWindow(Kernels.Prewitt, input[..], width, index)
    ensures temp == Saturate(Kernels.Response(Kernels.Prewitt, input[..], width, index))
  {
    Kernels.PrewittSums(input[..], width, index);
    var gx: Int32 := ((input[index] as int) + input[index + 1] + input[index + 2])
                   - ((input[index + width * 2] as int) + input[index + width * 2 + 1] + input[index + width * 2 + 2]);
    var gy: Int32 := ((input[index] as int) + input[index + width] + input[index + width * 2])
                   - ((input[index + 2] as int) + input[index + width + 2] + input[index + width * 2 + 2]);
    var t: Int16 := Abs(gx) + Abs(gy);
    temp := Clamp(t);
  }

  /** The loop body of operator `op`. */
  method Pixel(op: Kernels.Operator, input: array<Byte>, width: int, index: int) returns (temp: Byte)
    requires Kernels.InWindow(op, input[..], width, index)
    ensures temp == Saturate(Kernels.Response(op, input[..], width, index))
  {
    match op
    case Laplace1 => temp := LaplaceCrossPixel(input, width, index);
    case Laplace2 => temp := LaplaceBoxPixel(input, width, index);
    case Sobel => temp := SobelPixel(input, width, index);
    case Prewitt => temp := PrewittPixel(input, width, index);
  }

  /** The inner loop, for row j of window corners: for i in [0, W-1), the
      window with corner index = i + W*j writes output[index + W + 1].
      Afterwards the windows of rows 0 .. j have been applied to `before`,
      and the positions written so far are those of the trace. */
  method ScanRow(op: Kernels.Operator, input: array<Byte>, output: array<Byte>, width: int, height: int, j: int,
                 ghost before: seq<Byte>, ghost log: seq<int>)
    returns (ghost written: seq<int>)
    requires input != output
    requires 0 <= j < height - 1 && |before| == output.Length
    requires Runs(width, height) ==> input.Length >= NeedLen(op, width, height) && output.Length >= width * height
    requires output[..] == Scanned(op, input[..], before, width, height, width * j)
    requires log == WriteTrace(width, width * j)
    modifies output
    ensures output[..] == Scanned(op, input[..], before, width, height, width * (j + 1))
    ensures written == WriteTrace(width, width * (j + 1))
  {
    written := log;
    var i := 0;
    while i < width - 1
      invariant 0 <= i && (i <= width - 1 || i == 0)
      invariant output[..] == Scanned(op, input[..], before, width, height, i + width * j)
      invariant written == WriteTrace(width, i + width * j)
    {
      var index := i + width * j;
      ScanStep(op, input[..], before, width, height, i, j);
      TraceStep(width, i, j);
      var temp := Pixel(op, input, width, index);
      ghost var prev := output[..];
      output[index + width + 1] := temp;
      assert output[..] == prev[index + width + 1 := temp];
      written := written + [index + width + 1];
      i := i + 1;
    }
    ScanRowEnd(op, input[..], before, width, height, i, j);
    TraceRowEnd(width, i, j);
  }

  /** The nested loops every operator runs once its prologue succeeds: for
      j in [0, H-1), the inner loop over row j. The result is the filtered
      image, and `written` lists the positions written, in order: each
      interior position exactly once. */
  method Scan(op: Kernels.Operator, input: array<Byte>, output: array<Byte>, width: int, height: int)
    returns (ghost written: seq<int>)
    requires input != output
    requires Runs(width, height) ==> input.Length >= NeedLen(op, width, height) && output.Length >= width * height
    modifies output
    ensures output[..] == Filtered(op, input[..], old(output[..]), width, height)
    ensures WritesInterior(written, width, height)
  {
    ghost var before := output[..];
    written := [];
    ScanStart(op, input[..], before, width, height);
    var j := 0;
    while j < height - 1
      invariant 0 <= j && (j <= height - 1 || j == 0)
      invariant output[..] == Scanned(op, input[..], before, width, height, width * j)
      invariant written == WriteTrace(width, width * j)
    {
      written := ScanRow(op, input, output, width, height, j, before, written);
      j := j + 1;
    }
    ScanComplete(op, input[..], before, width, height, j);
    TraceComplete(width, height, j);
  }

  /** muLaplace. Selection 1 and 2 pick the 4- and 8-neighbour masks; any
      other selection writes nothing and still reports success. `written`
      lists the positions of `dst` written, in order. */
  method Laplace(checkDepth: DepthCheck, src: Image, dst: Image, selection: Byte)
    returns (ret: Status, ghost written: seq<int>)
    requires src.data != dst.data
    requires Gate(checkDepth, src, dst) == Success && selection == 1 ==> Fits(Kernels.Laplace1, src, dst)
    requires Gate(checkDepth, src, dst) == Success && selection == 2 ==> Fits(Kernels.Laplace2, src, dst)
    modifies dst.data
    ensures ret == Gate(checkDepth, src, dst)
    ensures src.data[..] == old(src.data[..])
    ensures ret != Success || (selection != 1 && selection != 2) ==>
              dst.data[..] == old(dst.data[..]) && written == []
    ensures ret == Success && selection == 1 ==>
              dst.data[..] == Filtered(Kernels.Laplace1, src.data[..], old(dst.data[..]), src.width, src.height) &&
              WritesInterior(written, src.width, src.height)
    ensures ret == Success && selection == 2 ==>
              dst.data[..] == Filtered(Kernels.Laplace2, src.data[..], old(dst.data[..]), src.width, src.height) &&
              WritesInterior(written, src.width, src.height)
  {
    written := [];
    ret := checkDepth(src.depth, dst.depth);
    if ret != Success {
      return;
    }
    if src.channels != 1 || dst.channels != 1 {
      ret := NotSupport;
      return;
    }
    if selection == 1 {
      written := Scan(Kernels.Laplace1, src.data, dst.data, src.width, src.height);
    } else if selection == 2 {
      written := Scan(Kernels.Laplace2, src.data, dst.data, src.width, src.height);
    }
    ret := Success;
  }

  /** muSobel, software path. */
  method Sobel(checkDepth: DepthCheck, src: Image, dst: Image)
    returns (ret: Status, ghost written: seq<int>)
    requires src.data != dst.data
    requires Gate(checkDepth, src, dst) == Success ==> Fits(Kernels.Sobel, src, dst)
    modifies dst.data
    ensures ret == Gate(checkDepth, src, dst)
    ensures src.data[..] == old(src.data[..])
    ensures ret != Success ==> dst.data[..] == old(dst.data[..]) && written == []
    ensures ret == Success ==>
              dst.data[..] == Filtered(Kernels.Sobel, src.data[..], old(dst.data[..]), src.width, src.height) &&
              WritesInterior(written, src.width, src.height)
  {
    written := [];
    ret := checkDepth(src.depth, dst.depth);
    if ret != Success {
      return;
    }
    if src.channels != 1 || dst.channels != 1 {
      ret := NotSupport;
      return;
    }
    written := Scan(Kernels.Sobel, src.data, dst.data, src.width, src.height);
    ret := Success;
  }

  /** muPrewitt. */
  method Prewitt(checkDepth: DepthCheck, src: Image, dst: Image)
    returns (ret: Status, ghost written: seq<int>)
    requires src.data != dst.data
    requires Gate(checkDepth, src, dst) == Success ==> Fits(Kernels.Prewitt, src, dst)
    modifies dst.data
    ensures ret == Gate(checkDepth, src, dst)
    ensures src.data[..] == old(src.data[..])
    ensures ret != Success ==> dst.data[..] == old(dst.data[..]) && written == []
    ensures ret == Success ==>
              dst.data[..] == Filtered(Kernels.Prewitt, src.data[..], old(dst.data[..]), src.width, src.height) &&
              WritesInterior(written, src.width, src.height)
  {
    written := [];
    ret := checkDepth(src.depth, dst.depth);
    if ret != Success {
      return;
    }
    if src.channels != 1 || dst.channels != 1 {
      ret := NotSupport;
      return;
    }
    written := Scan(Kernels.Prewitt, src.data, dst.data, src.width, src.height);
    ret := Success;
  }

  /** muCanny: a stub. Its depth check is commented out, so it accepts any
      images, reports success, and reads and writes nothing. */
  method Canny(src: Image, dst: Image, ang: Image) returns (ret: Status)
    ensures ret == Success
  {
    ret := Success;
  }
}
