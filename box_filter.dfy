/** The box filter (src/core/BoxFilter.cpp:5-37): for every pixel of a rectangle of the
    image, the mean of its samples is added to the pixel. */
module BoxFilter {
  import opened Colours
  import opened ImageLayout
  import opened Tiling

  /** The innermost loop of `BoxFilter::convolve` (and of the end of a pass): the sum of
      the spp samples of pixel (x, y), read at x * height * spp + y * spp + k for k in
      [0, spp). Divided by spp it is the pixel's mean. */
  method SampleSum(width: nat, height: nat, spp: nat, x: nat, y: nat, input: array<Colour>)
    returns (summation: Colour)
    requires x < width && y < height && 0 < spp
    requires width * height * spp <= input.Length
    ensures Divide(summation, spp as real) == PixelMean(input[..], width, height, spp, x, y)
  {
    var first := SampleIndex(x, y, 0, width, height, spp);
    ghost var pixelSamples := input[first..SampleIndex(x, y, spp - 1, width, height, spp) + 1];
    summation := Black;
    for k := 0 to spp
      invariant summation == Sum(pixelSamples[..k])
    {
      var sampleIndex := x * height * spp + y * spp + k;
      assert sampleIndex == SampleIndex(x, y, k, width, height, spp);
      assert pixelSamples[..k + 1][..k] == pixelSamples[..k];
      summation := Add(summation, input[sampleIndex]);
    }
    assert pixelSamples[..spp] == pixelSamples;
  }

  /** The middle loop of `BoxFilter::convolve`: column x of the rectangle, the pixels
      (x, y) for y in [colsBegin, colsEnd), each gets its mean added. */
  method ConvolveColumn(width: nat, height: nat, samples: nat, x: nat, colsBegin: nat, colsEnd: nat,
                        input: array<Colour>, output: array<Colour>)
    requires input != output
    requires 0 < samples
    requires x < width && colsEnd <= height
    requires width * height * samples <= input.Length && output.Length == width * height
    modifies output
    ensures output[..] == Filtered(old(output[..]), input[..], width, height, samples, x, x + 1, colsBegin, colsEnd)
  {
    ghost var swept := output[..];
    FilteredEmpty(swept, input[..], width, height, samples, x, x + 1, colsBegin, colsBegin);
    var y := colsBegin;
    while y < colsEnd
      invariant colsBegin <= y && (y <= colsEnd || y == colsBegin)
      invariant output[..] == Filtered(swept, input[..], width, height, samples, x, x + 1, colsBegin, y)
    {
      var summation := SampleSum(width, height, samples, x, y, input);
      var pixelIndex := y * width + x;
      assert pixelIndex == PixelIndex(x, y, width, height);
      FilteredAddPixel(swept, input[..], width, height, samples, x, colsBegin, y);
      output[pixelIndex] := Add(output[pixelIndex], Divide(summation, samples as real));
      y := y + 1;
    }
    if colsEnd < colsBegin {
      FilteredEmpty(swept, input[..], width, height, samples, x, x + 1, colsBegin, colsEnd);
    }
  }

  /** `BoxFilter::convolve`. For each x in [rowsBegin, rowsEnd) and y in [colsBegin,
      colsEnd) the pixel at y * width + x gets the mean of the `samples` samples stored from
      x * height * samples + y * samples on; no other pixel changes and the sample buffer is
      only read. The source takes the two buffers as pointers to different element types,
      so they cannot be the same buffer. */
  method Convolve(width: nat, height: nat, samples: nat,
                  rowsBegin: nat, rowsEnd: nat, colsBegin: nat, colsEnd: nat,
                  input: array<Colour>, output: array<Colour>)
    requires input != output
    requires 0 < samples
    requires rowsEnd <= width && colsEnd <= height
    requires width * height * samples <= input.Length && output.Length == width * height
    modifies output
    ensures output[..] == Filtered(old(output[..]), input[..], width, height, samples,
                                   rowsBegin, rowsEnd, colsBegin, colsEnd)
    ensures input[..] == old(input[..])
  {
    ghost var original := output[..];
    FilteredEmpty(original, input[..], width, height, samples, rowsBegin, rowsBegin, colsBegin, colsEnd);
    var x := rowsBegin;
    while x < rowsEnd
      invariant rowsBegin <= x && (x <= rowsEnd || x == rowsBegin)
      invariant output[..] == Filtered(original, input[..], width, height, samples, rowsBegin, x, colsBegin, colsEnd)
    {
      ConvolveColumn(width, height, samples, x, colsBegin, colsEnd, input, output);
      FilteredAddColumn(original, input[..], width, height, samples, rowsBegin, x, colsBegin, colsEnd);
      x := x + 1;
    }
    if rowsEnd < rowsBegin {
      FilteredEmpty(original, input[..], width, height, samples, rowsBegin, rowsEnd, colsBegin, colsEnd);
    }
  }

  /** The pixel buffer after `Convolve` has been applied to each task in turn, a task
      covering the rows [beginX, endX) and the columns [beginY, endY). */
  function ConvolveTasks(pixels: seq<Colour>, samples: seq<Colour>, width: nat, height: nat, spp: nat,
                         tasks: seq<CameraTask>): (r: seq<Colour>)
    requires |pixels| == width * height && width * height * spp <= |samples| && 0 < spp
    ensures |r| == |pixels|
    decreases |tasks|
  {
    if tasks == [] then pixels
    else
      var t := tasks[0];
      ConvolveTasks(Filtered(pixels, samples, width, height, spp, t.beginX, t.endX, t.beginY, t.endY),
                    samples, width, height, spp, tasks[1..])
  }

  /** With pairwise disjoint tasks, each pixel gets its mean added once if some task
      covers it and is unchanged otherwise: the order of the tasks does not matter. */
  lemma {:induction false} ConvolveDisjointTasksAt(pixels: seq<Colour>, samples: seq<Colour>,
                                                   width: nat, height: nat, spp: nat,
                                                   tasks: seq<CameraTask>, p: nat)
    requires |pixels| == width * height && width * height * spp <= |samples| && 0 < spp
    requires PairwiseDisjoint(tasks)
    requires p < |pixels|
    ensures var c := PixelCoords(p, width, height);
      ConvolveTasks(pixels, samples, width, height, spp, tasks)[p]
      == if exists k :: 0 <= k < |tasks| && InTile(tasks[k], c.0, c.1)
         then Add(pixels[p], PixelMean(samples, width, height, spp, c.0, c.1))
         else pixels[p]
    decreases |tasks|
  {
    var c := PixelCoords(p, width, height);
    if tasks != [] {
      var t := tasks[0];
      var rest := tasks[1..];
      var once := Filtered(pixels, samples, width, height, spp, t.beginX, t.endX, t.beginY, t.endY);
      assert PairwiseDisjoint(rest) by {
        forall k1, k2, x: nat, y: nat | 0 <= k1 < k2 < |rest| && InTile(rest[k1], x, y)
          ensures !InTile(rest[k2], x, y)
        {
          assert rest[k1] == tasks[k1 + 1] && rest[k2] == tasks[k2 + 1];
        }
      }
      ConvolveDisjointTasksAt(once, samples, width, height, spp, rest, p);
      var inRest := exists k :: 0 <= k < |rest| && InTile(rest[k], c.0, c.1);
      assert (exists k :: 0 <= k < |tasks| && InTile(tasks[k], c.0, c.1)) <==> InTile(t, c.0, c.1) || inRest by {
        if exists k :: 0 <= k < |tasks| && InTile(tasks[k], c.0, c.1) {
          var k :| 0 <= k < |tasks| && InTile(tasks[k], c.0, c.1);
          if k > 0 {
            assert rest[k - 1] == tasks[k];
          }
        }
        if inRest {
          var k :| 0 <= k < |rest| && InTile(rest[k], c.0, c.1);
          assert tasks[k + 1] == rest[k];
        }
      }
      if inRest {
        var k :| 0 <= k < |rest| && InTile(rest[k], c.0, c.1);
        assert tasks[k + 1] == rest[k];
        assert !InTile(t, c.0, c.1);
      }
    }
  }

  /** Filtering the camera buckets one by one gives the same image as one filter over the
      whole image. */
  lemma TiledConvolveIsWhole(pixels: seq<Colour>, samples: seq<Colour>, width: nat, height: nat, spp: nat,
                             bucketSize: nat)
    requires |pixels| == width * height && width * height * spp <= |samples| && 0 < spp
    requires 0 < bucketSize
    ensures ConvolveTasks(pixels, samples, width, height, spp, Tiles(width, height, bucketSize))
         == Filtered(pixels, samples, width, height, spp, 0, width, 0, height)
  {
    var tiles := Tiles(width, height, bucketSize);
    var tiled := ConvolveTasks(pixels, samples, width, height, spp, tiles);
    var whole := Filtered(pixels, samples, width, height, spp, 0, width, 0, height);
    TilesDisjoint(width, height, bucketSize);
    forall p | 0 <= p < |pixels|
      ensures tiled[p] == whole[p]
    {
      var c := PixelCoords(p, width, height);
      ConvolveDisjointTasksAt(pixels, samples, width, height, spp, tiles, p);
      CoveringIndex(width, height, bucketSize, c.0, c.1);
    }
  }
}
