/** The layout of the image accumulator (src/core/Pathtracer.cpp:37-41, 404, 410 and
    src/core/BoxFilter.cpp:25, 31). A width x height image keeps one pixel per (x, y) at
    offset y * width + x, row by row, and spp samples per pixel at offset
    x * height * spp + y * spp + k, so that the samples of one pixel are adjacent and the
    pixels of one column x follow each other. The reduction that turns the samples of a pass
    into pixel values is specified here once, for the box filter and the end of a pass. */
module ImageLayout {
  import opened Arithmetic
  import opened Colours

  /** Where sample k of pixel (x, y) lives. The offset is inside the buffer of
      width * height * spp samples, and it decodes back to (x, y, k): distinct
      coordinates never share a sample slot. */
  function SampleIndex(x: nat, y: nat, k: nat, width: nat, height: nat, spp: nat): (i: nat)
    requires x < width && y < height && k < spp
    ensures i < width * height * spp
    ensures i % spp == k && (i / spp) % height == y && (i / spp) / height == x
  {
    var column := x * height + y;
    assert x * height * spp + y * spp + k == column * spp + k;
    DivModOfPair(column, k, spp);
    DivModOfPair(x, y, height);
    MulMonotonic(x + 1, width, height);
    MulMonotonic(column + 1, width * height, spp);
    x * height * spp + y * spp + k
  }

  /** Which sample slot an offset is: every offset of the sample buffer is the slot of
      exactly one (x, y, k), so a full sweep over the pixels reads each sample once. */
  function SampleCoords(i: nat, width: nat, height: nat, spp: nat): (c: (nat, nat, nat))
    requires i < width * height * spp
    ensures c.0 < width && c.1 < height && c.2 < spp
    ensures SampleIndex(c.0, c.1, c.2, width, height, spp) == i
  {
    assert i < spp * (width * height);
    DivBelow(i, spp, width * height);
    var column := i / spp;
    assert column < height * width;
    DivBelow(column, height, width);
    var x, y, k := column / height, column % height, i % spp;
    assert column == x * height + y;
    assert i == column * spp + k;
    assert x * height * spp + y * spp + k == column * spp + k;
    (x, y, k)
  }

  /** Where pixel (x, y) lives. The offset is inside the buffer of width * height
      pixels and decodes back to (x, y). */
  function PixelIndex(x: nat, y: nat, width: nat, height: nat): (i: nat)
    requires x < width && y < height
    ensures i < width * height
    ensures i % width == x && i / width == y
  {
    DivModOfPair(y, x, width);
    MulMonotonic(y + 1, height, width);
    y * width + x
  }

  /** Which pixel an offset is: every offset of the pixel buffer is exactly one pixel. */
  function PixelCoords(p: nat, width: nat, height: nat): (c: (nat, nat))
    requires p < width * height
    ensures c.0 < width && c.1 < height
    ensures PixelIndex(c.0, c.1, width, height) == p
  {
    DivBelow(p, width, height);
    (p % width, p / width)
  }

  /** The mean of the spp samples of pixel (x, y). */
  function PixelMean(samples: seq<Colour>, width: nat, height: nat, spp: nat, x: nat, y: nat): Colour
    requires x < width && y < height && 0 < spp
    requires width * height * spp <= |samples|
  {
    var first := SampleIndex(x, y, 0, width, height, spp);
    var last := SampleIndex(x, y, spp - 1, width, height, spp);
    Mean(samples[first..last + 1])
  }

  /** Pixel p after a box filter over the rows [rowsBegin, rowsEnd) and the columns
      [colsBegin, colsEnd): its mean added if it lies in that range, otherwise unchanged. */
  function FilteredPixel(pixels: seq<Colour>, samples: seq<Colour>, width: nat, height: nat, spp: nat,
                         rowsBegin: nat, rowsEnd: nat, colsBegin: nat, colsEnd: nat, p: nat): Colour
    requires |pixels| == width * height && width * height * spp <= |samples| && 0 < spp
    requires p < |pixels|
  {
    var c := PixelCoords(p, width, height);
    if rowsBegin <= c.0 < rowsEnd && colsBegin <= c.1 < colsEnd
    then Add(pixels[p], PixelMean(samples, width, height, spp, c.0, c.1))
    else pixels[p]
  }

  /** The whole pixel buffer after a box filter over one range of pixels. */
  function Filtered(pixels: seq<Colour>, samples: seq<Colour>, width: nat, height: nat, spp: nat,
                    rowsBegin: nat, rowsEnd: nat, colsBegin: nat, colsEnd: nat): (r: seq<Colour>)
    requires |pixels| == width * height && width * height * spp <= |samples| && 0 < spp
    ensures |r| == |pixels|
  {
    seq(|pixels|, p requires 0 <= p < |pixels| =>
      FilteredPixel(pixels, samples, width, height, spp, rowsBegin, rowsEnd, colsBegin, colsEnd, p))
  }

  /** The pixel buffer after one completed pass: every pixel has had its mean added. */
  function PassAverage(pixels: seq<Colour>, samples: seq<Colour>, width: nat, height: nat, spp: nat): (r: seq<Colour>)
    requires |pixels| == width * height && width * height * spp <= |samples| && 0 < spp
    ensures |r| == |pixels|
  {
    seq(|pixels|, p requires 0 <= p < |pixels| =>
      var c := PixelCoords(p, width, height);
      Add(pixels[p], PixelMean(samples, width, height, spp, c.0, c.1)))
  }

  /** Filtering the full range [0, width) x [0, height) is the end-of-pass reduction. */
  lemma FullFilterIsPassAverage(pixels: seq<Colour>, samples: seq<Colour>, width: nat, height: nat, spp: nat)
    requires |pixels| == width * height && width * height * spp <= |samples| && 0 < spp
    ensures Filtered(pixels, samples, width, height, spp, 0, width, 0, height)
         == PassAverage(pixels, samples, width, height, spp)
  {
    var f := Filtered(pixels, samples, width, height, spp, 0, width, 0, height);
    var a := PassAverage(pixels, samples, width, height, spp);
    forall p | 0 <= p < |pixels|
      ensures f[p] == a[p]
    {
      var c := PixelCoords(p, width, height);
    }
  }

  /** A box filter over an empty range changes nothing. */
  lemma FilteredEmpty(pixels: seq<Colour>, samples: seq<Colour>, width: nat, height: nat, spp: nat,
                      rowsBegin: nat, rowsEnd: nat, colsBegin: nat, colsEnd: nat)
    requires |pixels| == width * height && width * height * spp <= |samples| && 0 < spp
    requires rowsEnd <= rowsBegin || colsEnd <= colsBegin
    ensures Filtered(pixels, samples, width, height, spp, rowsBegin, rowsEnd, colsBegin, colsEnd) == pixels
  {
  }

  /** Growing the swept part of column x by the one pixel (x, y) adds that pixel's mean
      to it and changes no other pixel. */
  lemma FilteredAddPixel(pixels: seq<Colour>, samples: seq<Colour>, width: nat, height: nat, spp: nat,
                         x: nat, colsBegin: nat, y: nat)
    requires |pixels| == width * height && width * height * spp <= |samples| && 0 < spp
    requires x < width && colsBegin <= y < height
    ensures var q := PixelIndex(x, y, width, height);
      && Filtered(pixels, samples, width, height, spp, x, x + 1, colsBegin, y)[q] == pixels[q]
      && Filtered(pixels, samples, width, height, spp, x, x + 1, colsBegin, y + 1)
         == Filtered(pixels, samples, width, height, spp, x, x + 1, colsBegin, y)
              [q := Add(pixels[q], PixelMean(samples, width, height, spp, x, y))]
  {
    var q := PixelIndex(x, y, width, height);
    var before := Filtered(pixels, samples, width, height, spp, x, x + 1, colsBegin, y);
    var after := Filtered(pixels, samples, width, height, spp, x, x + 1, colsBegin, y + 1);
    var updated := before[q := Add(pixels[q], PixelMean(samples, width, height, spp, x, y))];
    forall p | 0 <= p < |pixels|
      ensures after[p] == updated[p]
    {
      var c := PixelCoords(p, width, height);
    }
  }

  /** A filter of column x over [colsBegin, colsEnd) after a filter of the columns before
      it is one filter over [rowsBegin, x + 1). */
  lemma FilteredAddColumn(pixels: seq<Colour>, samples: seq<Colour>, width: nat, height: nat, spp: nat,
                          rowsBegin: nat, x: nat, colsBegin: nat, colsEnd: nat)
    requires |pixels| == width * height && width * height * spp <= |samples| && 0 < spp
    requires rowsBegin <= x
    ensures var swept := Filtered(pixels, samples, width, height, spp, rowsBegin, x, colsBegin, colsEnd);
      Filtered(swept, samples, width, height, spp, x, x + 1, colsBegin, colsEnd)
      == Filtered(pixels, samples, width, height, spp, rowsBegin, x + 1, colsBegin, colsEnd)
  {
    var swept := Filtered(pixels, samples, width, height, spp, rowsBegin, x, colsBegin, colsEnd);
    var twice := Filtered(swept, samples, width, height, spp, x, x + 1, colsBegin, colsEnd);
    var once := Filtered(pixels, samples, width, height, spp, rowsBegin, x + 1, colsBegin, colsEnd);
    forall p | 0 <= p < |pixels|
      ensures twice[p] == once[p]
    {
      var c := PixelCoords(p, width, height);
    }
  }

  /** Pixel (x, y) after a box filter: its mean added exactly when x is in [rowsBegin,
      rowsEnd) and y in [colsBegin, colsEnd), unchanged otherwise. */
  lemma FilteredAt(pixels: seq<Colour>, samples: seq<Colour>, width: nat, height: nat, spp: nat,
                   rowsBegin: nat, rowsEnd: nat, colsBegin: nat, colsEnd: nat, x: nat, y: nat)
    requires |pixels| == width * height && width * height * spp <= |samples| && 0 < spp
    requires x < width && y < height
    ensures var q := PixelIndex(x, y, width, height);
      Filtered(pixels, samples, width, height, spp, rowsBegin, rowsEnd, colsBegin, colsEnd)[q]
      == if rowsBegin <= x < rowsEnd && colsBegin <= y < colsEnd
         then Add(pixels[q], PixelMean(samples, width, height, spp, x, y))
         else pixels[q]
  {
    var q := PixelIndex(x, y, width, height);
    assert PixelCoords(q, width, height) == (x, y);
  }

  /** Pixel (x, y) after a pass: its mean added. */
  lemma PassAverageAt(pixels: seq<Colour>, samples: seq<Colour>, width: nat, height: nat, spp: nat, x: nat, y: nat)
    requires |pixels| == width * height && width * height * spp <= |samples| && 0 < spp
    requires x < width && y < height
    ensures var q := PixelIndex(x, y, width, height);
      PassAverage(pixels, samples, width, height, spp)[q]
      == Add(pixels[q], PixelMean(samples, width, height, spp, x, y))
  {
    var q := PixelIndex(x, y, width, height);
    assert PixelCoords(q, width, height) == (x, y);
  }

  /** Distinct (x, y, k) never share a sample slot, so a sweep over all pixels reads each
      sample at most once; with SampleCoords, exactly once. */
  lemma SampleIndexInjective(x: nat, y: nat, k: nat, x': nat, y': nat, k': nat, width: nat, height: nat, spp: nat)
    requires x < width && y < height && k < spp
    requires x' < width && y' < height && k' < spp
    requires SampleIndex(x, y, k, width, height, spp) == SampleIndex(x', y', k', width, height, spp)
    ensures x == x' && y == y' && k == k'
  {
    var i := SampleIndex(x, y, k, width, height, spp);
    assert i % spp == k && i % spp == k';
  }

  /** Distinct pixels never share a pixel slot. */
  lemma PixelIndexInjective(x: nat, y: nat, x': nat, y': nat, width: nat, height: nat)
    requires x < width && y < height && x' < width && y' < height
    requires PixelIndex(x, y, width, height) == PixelIndex(x', y', width, height)
    ensures x == x' && y == y'
  {
    var i := PixelIndex(x, y, width, height);
    assert i % width == x && i % width == x';
  }
}
