/** RGB colour triples as used for both samples and pixels. The source stores the three
    channels as single-precision floats; here they are exact reals. */
module Colours {

  datatype Colour = Colour(r: real, g: real, b: real)

  const Black := Colour(0.0, 0.0, 0.0)

  /** Channel-wise sum, the `+=` the accumulators use. */
  function Add(a: Colour, c: Colour): Colour
  {
    Colour(a.r + c.r, a.g + c.g, a.b + c.b)
  }

  /** Channel-wise division by a sample count. */
  function Divide(c: Colour, n: real): Colour
    requires n != 0.0
  {
    Colour(c.r / n, c.g / n, c.b / n)
  }

  /** Left-to-right sum, in the order the reduction loops accumulate. */
  function Sum(s: seq<Colour>): Colour
  {
    if |s| == 0 then Black else Add(Sum(s[..|s| - 1]), s[|s| - 1])
  }

  /** The box-filter value of a pixel: the mean of its samples. */
  function Mean(s: seq<Colour>): Colour
    requires |s| > 0
  {
    Divide(Sum(s), |s| as real)
  }
}
