/** The C integer types of muEdge.c and the two scalar steps every operator
    applies to a pixel response: C's abs() and the saturation into MU_8U. */
module Pixels {

  /** MU_8U: one sample of a single-channel 8-bit image. */
  type Byte = x: int | 0 <= x < 0x100

  /** MU_16S: the type of the intermediate `temp`. */
  type Int16 = x: int | -0x8000 <= x < 0x8000

  /** MU_32S: the type of `gx` and `gy`. */
  type Int32 = x: int | -0x8000_0000 <= x < 0x8000_0000

  /** C's abs() on an int. */
  function Abs(x: int): (r: nat)
    ensures r == x || r == -x
  {
    if x < 0 then -x else x
  }

  /** `temp > 255 ? 255 : temp` followed by the cast to MU_8U: the smaller of
      the response and 255. */
  function Saturate(t: nat): (b: Byte)
    ensures b <= t && b <= 255
    ensures b == t || b == 255
  {
    if t > 255 then 255 else t
  }

  /** `temp > 255 ? 255 : temp` followed by `temp < 0 ? 0 : temp`, the two
      clamps of muSobel and muPrewitt. On a value that is never negative,
      such as a sum of magnitudes, the second clamp does nothing and the
      pair is the saturation. */
  function Clamp(t: int): (b: Byte)
    ensures 0 <= t ==> b == Saturate(t)
    ensures t < 0 ==> b == 0
  {
    var upper := if t > 255 then 255 else t;
    if upper < 0 then 0 else upper
  }
}
