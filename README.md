# Edge operators of muEdge.c, modelled and verified in Dafny

This project models the edge-detection core of the mucore image library,
`mucore/src/muEdge.c`:

- `muLaplace` with its two masks. Selection 1 is the 4-neighbour mask and
  selection 2 the 8-neighbour mask.
- `muSobel`, the software path.
- `muPrewitt`.
- The `muCanny` stub.

`muLaplace`, `muSobel` and `muPrewitt` each run the same validation
prologue first. The depth check comes first, and its status is returned
unchanged when it is not success. Then both images must have one channel,
or the operator returns `MU_ERR_NOT_SUPPORT`.
After that comes a nested loop over the flat, row-major 8-bit buffers. For
`j` in `[0, H-1)` and `i` in `[0, W-1)`, the window whose top-left corner is
`index = i + W*j` is read, and its saturated response is written to
`out[index + W + 1]`. That is the pixel at row `j+1`, column `i+1`.

## How the model is built

- `pixels.dfy` (`Pixels`) holds the C integer types (`MU_8U`, `MU_16S`,
  `MU_32S` as subset types), `abs`, and the clamps the loops apply to a
  response.
- `kernels.dfy` (`Kernels`) holds the six 3x3 masks exactly as the header
  comments of `muEdge.c` draw them. `Correlate` is a mask's correlation with
  one window, and `Response` is the value each operator computes. The `*Sum`
  lemmas prove that the sums the C code writes out with its own index
  arithmetic are those mask correlations. `(width<<1)` and `<<2`/`<<3` are
  modelled as multiplication by 2, 4 and 8.
- `raster.dfy` (`Raster`) holds the buffer geometry. `Filtered` specifies
  the destination after a successful call. `Scanned` specifies it part-way
  through the loops, and `WriteTrace` lists the positions written so far, in
  order. The lemmas about these three give the write footprint, the read
  footprint and the over-read.
- `edge.dfy` (`Edge`) holds the operators themselves:
  - imperative methods over `array`s, with the prologue as early returns;
  - the shared nested loop (`Scan` over rows, `ScanRow` over columns);
  - one method per operator for the loop body, holding the C expression
    with `temp` typed `MU_16S` and `gx`, `gy` typed `MU_32S`.

  Every method is proved against the `Raster`/`Kernels` specification.
  `muImage_t` becomes the datatype `Image` holding the `imagedata` array,
  and `muError_t` becomes `Status`. An error `Other(code)` never carries
code 0, which the callers' `if (ret)` would read as success.

The depth check `muCheckDepth(4, src, MU_IMG_DEPTH_8U, dst, MU_IMG_DEPTH_8U)`
is a parameter of `Edge.Laplace`, `Edge.Sobel` and `Edge.Prewitt`. It is a
function `DepthCheck` from the two images' depths to a status. `muCanny`
calls no depth check. muCore.h is not part of this model.

### Buffer sizes the loops need

The C code checks no buffer size. The model states the size that makes every
access valid as a precondition, and it applies only when the prologue
succeeds and both loops run (`W >= 2`, `H >= 2`):

- the destination needs at least `W*H` bytes;
- the source needs `W*(H+1) + 1` bytes, or `W*(H+1)` for Laplace selection 1.

These sizes come from the windows the loops visit. The window of the last
iteration (`i = W-2`, `j = H-2`) reads up to `index + 2W + 2`, which is
`W*H + W` (`Raster.LastWindowOverRead`). Index `W*H` is read as well, so the
loops read `W+1` bytes past the `W*H` bytes of the image: the whole row `H`
and column 0 of row `H+1`. For Laplace selection 1 they read `W` bytes, the
row `H`. Every one of those bytes is read by some window (`Raster.OverReadBy`).
The last window of every row also
has its right-hand column in column 0 of the following row
(`Raster.ColumnWrap`). The model follows this behaviour as written.

## Model

| member | source | states |
|---|---|---|
| Pixels.Abs | mucore/src/muEdge.c:155 | `abs` gives the value or its negation, never negative |
| Pixels.Saturate | mucore/src/muEdge.c:66-67 | `temp > 255 ? 255 : temp`, then the `MU_8U` cast: the result is a byte, at most the response and at most 255, and equal to one of them |
| Pixels.Clamp | mucore/src/muEdge.c:157-158 | the upper then lower clamp of Sobel/Prewitt: on a non-negative response it equals the saturation, so the `temp < 0` clamp never changes anything; a negative value would become 0 |
| Kernels.LaplaceCrossSum | mucore/src/muEdge.c:65 | the Laplace selection-1 sum at offsets `index+1`, `+W`, `+W+2`, `+2W+1`, minus 4 times `index+W+1`, is the correlation of the window with mask 1 of the header comment (lines 25-27) |
| Kernels.LaplaceBoxSum | mucore/src/muEdge.c:79-80 | the selection-2 sum of the 8 neighbours minus 8 times the centre is the correlation with mask 2 |
| Kernels.SobelSums | mucore/src/muEdge.c:149-153 | `gx` and `gy` as the code computes them are the correlations with the Sobel `Gx` and `Gy` masks of lines 97-99 |
| Kernels.PrewittSums | mucore/src/muEdge.c:218-222 | `gx` and `gy` of muPrewitt are the correlations with the Prewitt masks of lines 175-177 |
| Kernels.Response | mucore/src/muEdge.c:155 | each operator's response, `abs` of one correlation or `abs(gx)+abs(gy)`, is non-negative and at most 1020/2040/1530/1020 for Laplace 1/Laplace 2/Sobel/Prewitt, so it fits the `MU_16S` temp without overflow |
| Kernels.GradientBounds | mucore/src/muEdge.c:149-153 | each gradient alone is bounded: `abs(gx)`, `abs(gy)` <= 1020 for Sobel and <= 765 for Prewitt, far inside `MU_32S` |
| Kernels.ConstantResponse | mucore/src/muEdge.c:97-99 | when every cell the operator's masks weight holds one value, the response is 0, since every mask's weights sum to zero; bytes of the flat range outside the 3x3 window are not constrained |
| Kernels.OffsetsWithinReach | mucore/src/muEdge.c:79-80 | every cell an operator reads lies in `[index, index + Reach]`, with Reach `2W+2` (`2W+1` for Laplace selection 1), and the cell at Reach is read |
| Raster.InteriorRowCol | mucore/src/muEdge.c:60-67 | the flat position `r*W + c` is written by the loops exactly when `r >= 1` and `c >= 1` |
| Raster.WindowInBounds | mucore/src/muEdge.c:144-160 | iteration `(i, j)` reads a window that ends inside the needed source length and writes an interior position |
| Raster.CornerTarget | mucore/src/muEdge.c:145 | the window in column `col` writes an interior position exactly when `col` is not the last column, the one the inner loop never reaches |
| Raster.TraceLogged | mucore/src/muEdge.c:144-162 | after the windows with corner below `n`, the write trace is strictly increasing and holds exactly the interior positions whose corner is below `n` |
| Raster.TraceComplete | mucore/src/muEdge.c:144-162 | when the loops end, the write trace holds every interior position once and nothing else |
| Raster.FilteredPixel | mucore/src/muEdge.c:63-67 | in the filtered image, the pixel at row `r >= 1`, column `c >= 1` is the saturated response of the window with corner at row `r-1`, column `c-1` |
| Raster.FilteredBorder | mucore/src/muEdge.c:60-61 | row 0, column 0 and every byte past the `W*H` image keep their previous values |
| Raster.ConstantImage | mucore/src/muEdge.c:144-160 | when every source byte that some window reads through a weighted cell holds one value, every written pixel is 0; bytes no window reads are not constrained |
| Raster.LastWindowOverRead | mucore/src/muEdge.c:144-153 | the last window ends at `W*H + W` (`W*H + W - 1` for Laplace selection 1), and index `W*H` is read too, so the loops read `W+1` bytes (`W` for selection 1) past the `W*H` image |
| Raster.OverReadBy | mucore/src/muEdge.c:144-153 | every byte from `W*H` up to the needed length is read through a weighted cell of some window `(i, j)` the loops visit |
| Raster.ColumnWrap | mucore/src/muEdge.c:145-153 | for `i = W-2` the window's right-hand column `i+2` is column 0 of the next row |
| Edge.Gate | mucore/src/muEdge.c:38-47 | the prologue succeeds exactly when the depth check succeeds and both images have one channel; a depth-check error is returned unchanged even when the channels are wrong; otherwise it is `MU_ERR_NOT_SUPPORT` |
| Edge.LaplaceCrossPixel | mucore/src/muEdge.c:63-67 | the selection-1 loop body yields the saturated 4-neighbour response of the window |
| Edge.LaplaceBoxPixel | mucore/src/muEdge.c:77-82 | the selection-2 loop body yields the saturated 8-neighbour response |
| Edge.SobelPixel | mucore/src/muEdge.c:147-160 | the Sobel loop body, with `gx`, `gy` in `MU_32S` and `temp` in `MU_16S`, yields the saturated Sobel response |
| Edge.PrewittPixel | mucore/src/muEdge.c:216-229 | the Prewitt loop body yields the saturated Prewitt response |
| Edge.ScanRow | mucore/src/muEdge.c:145-162 | one pass of the inner loop applies the windows of row `j` and extends the write trace by that row's positions |
| Edge.Scan | mucore/src/muEdge.c:144-162 | the nested loops leave the destination equal to the filtered image of its old contents, and write each interior position exactly once, in increasing order |
| Edge.Laplace | mucore/src/muEdge.c:30-88 | returns the prologue's status; on error, or for a selection other than 1 and 2, the destination is unchanged and nothing is written; for selection 1 or 2 the destination becomes the filtered image and every interior position is written once; the source is unchanged |
| Edge.Sobel | mucore/src/muEdge.c:108-165 | returns the prologue's status; on error the destination is unchanged; on success it is the Sobel-filtered image with each interior position written once; the source is unchanged |
| Edge.Prewitt | mucore/src/muEdge.c:186-234 | as for Sobel, with the Prewitt masks |
| Edge.Canny | mucore/src/muEdge.c:254-264 | the stub reports success for any images, and it modifies nothing |

## Left out

- The hardware path of `muSobel` (lines 129-135) is not modelled. On HISI3516/HISI3531 builds, when both depths carry `MU_IMG_HW_ACCE`, it calls `platformSobel`, whose code is not part of this model. `Edge.Sobel` is the software path.
- `muCheckDepth` is not modelled. It is declared in muCore.h, which is not part of this model. Laplace, Sobel and Prewitt take it as a function of the two depths.
- Overflow of the `MU_32S` index arithmetic (`i + width*j` and the offsets) is not modelled. Integers are unbounded, so images whose indices exceed 2^31 are outside the model.
- In-place calls, where `src` and `dst` share one buffer, are excluded by a precondition. The loops would then read pixels they had already written.
- Buffer sizes are preconditions, because the C code trusts its caller. A buffer shorter than stated above would make the C code read or write out of bounds.
- `muCanny` has no edge detector to model. Its depth check is commented out, and it returns success.
- The `muImage_t` fields the operators do not read are not modelled, and neither is image allocation. The destination's width and height are not read either, since the loops use the source's.
