/** The sequential core of `Pathtracer` (src/core/Pathtracer.cpp): the image accumulator
    it allocates, the camera bucket queue, the shading-run queue, `clear` and the reduction
    that ends a pass of `process`. */
module Pathtracing {
  import opened Arithmetic
  import opened Colours
  import opened ImageLayout
  import opened Tiling
  import opened ShadingOrder
  import opened SurfaceRuns
  import opened BoxFilter

  /** The default image of the source, used when the scene description sets none. */
  const DefaultWidth: nat := 700
  const DefaultHeight: nat := 500
  const DefaultBase: nat := 8
  /** The default bucket size of the render settings. */
  const DefaultBucketSize: nat := 16

  class Pathtracer {
    /** The image: `width` x `height` pixels, `base` x `base` samples per pixel. */
    const width: nat
    const height: nat
    const base: nat
    /** `settings->bucket_size`, the side of a camera bucket. */
    const bucketSize: nat
    /** The sample buffer, x * height * base² + y * base² + k for sample k of pixel (x, y). */
    const samples: array<Colour>
    /** The pixel buffer, y * width + x for pixel (x, y). */
    const pixels: array<Colour>
    /** The number of completed passes accumulated in `pixels`. */
    var iteration: int
    /** The camera task queue, in the order tasks were pushed. */
    var cameraQueue: seq<CameraTask>
    /** The shading task queue, in the order tasks were pushed. */
    var surfaceQueue: seq<SurfaceTask>

    /** The buffers have the sizes the allocation gives them. */
    ghost predicate Valid()
      reads this
    {
      && samples.Length == width * height * (base * base)
      && pixels.Length == width * height
      && samples != pixels
    }

    /** The image allocation of `construct`: a sample buffer of width * height * base²
        samples and a pixel buffer of width * height pixels, all set to black, and no pass
        accumulated yet. */
    constructor (width: nat, height: nat, base: nat, bucketSize: nat)
      ensures Valid()
      ensures this.width == width && this.height == height
      ensures this.base == base && this.bucketSize == bucketSize
      ensures fresh(samples) && fresh(pixels)
      ensures forall i :: 0 <= i < pixels.Length ==> pixels[i] == Black
      ensures iteration == 0 && cameraQueue == [] && surfaceQueue == []
    {
      this.width := width;
      this.height := height;
      this.base := base;
      this.bucketSize := bucketSize;
      iteration := 0;
      cameraQueue := [];
      surfaceQueue := [];
      samples := new Colour[width * height * (base * base)];
      var pixelBuffer := new Colour[width * height];
      for i := 0 to pixelBuffer.Length
        invariant forall p :: 0 <= p < i ==> pixelBuffer[p] == Black
      {
        pixelBuffer[i] := Black;
      }
      pixels := pixelBuffer;
    }

    /** The queueing loop of `camera_threads`: bucket (i, j) for every i below
        ceil(width / bucketSize) and j below ceil(height / bucketSize), j fastest, clipped
        to the image. The tasks it queues are exactly the tiling. */
    method CameraThreads()
      requires 0 < bucketSize
      modifies this`cameraQueue
      ensures cameraQueue == old(cameraQueue) + Tiles(width, height, bucketSize)
    {
      var taskCountX := CeilDiv(width, bucketSize);
      var taskCountY := CeilDiv(height, bucketSize);
      ghost var tiles := Tiles(width, height, bucketSize);
      assert |tiles| == taskCountX * taskCountY;
      for i := 0 to taskCountX
        invariant i * taskCountY <= |tiles|
        invariant cameraQueue == old(cameraQueue) + tiles[..i * taskCountY]
      {
        MulMonotonic(i + 1, taskCountX, taskCountY);
        assert i * taskCountY + taskCountY <= |tiles|;
        for j := 0 to taskCountY
          invariant cameraQueue == old(cameraQueue) + tiles[..i * taskCountY + j]
        {
          var task := BucketTask(i, j);
          ghost var k := i * taskCountY + j;
          assert cameraQueue + [task] == old(cameraQueue) + tiles[..k + 1] by {
            TilesAt(width, height, bucketSize, i, j);
            assert tiles[..k + 1] == tiles[..k] + [tiles[k]];
          }
          cameraQueue := cameraQueue + [task];
        }
        assert (i + 1) * taskCountY == i * taskCountY + taskCountY;
      }
    }

    /** The body of the queueing loop of `camera_threads`: bucket (i, j) is bucketSize
        pixels wide and high, less at the right and bottom edges where it is cut to what is
        left of the image. */
    method BucketTask(i: nat, j: nat) returns (task: CameraTask)
      requires 0 < bucketSize
      requires i < CeilDiv(width, bucketSize) && j < CeilDiv(height, bucketSize)
      ensures task == Tile(i, j, width, height, bucketSize)
    {
      var taskWidth := bucketSize;
      if i * bucketSize + bucketSize > width {
        BucketStartsInside(i, width, bucketSize);
        taskWidth := width - i * bucketSize;
      }
      var taskHeight := bucketSize;
      if j * bucketSize + bucketSize > height {
        BucketStartsInside(j, height, bucketSize);
        taskHeight := height - j * bucketSize;
      }
      var beginX := i * bucketSize;
      var beginY := j * bucketSize;
      task := CameraTask(beginX, beginY, beginX + taskWidth, beginY + taskHeight);
    }

    /** The partition loop of `surface_threads` over a batch sorted by `operator<`: a
        task is queued at every change of surface and whenever the run in progress already
        holds more than 4096 rays, and the last run is queued after the loop. The tasks it
        queues are exactly the runs of the batch. The source reads the first ray of the
        batch, so the batch is not empty. */
    method SurfaceThreads(batch: seq<RayHit>)
      requires 1 <= |batch|
      modifies this`surfaceQueue
      ensures surfaceQueue == old(surfaceQueue) + Runs(batch, 0)
    {
      var currentId := batch[0].geomID;
      var currentIndex := 0;
      for position := 0 to |batch|
        invariant currentIndex <= position && currentIndex < |batch|
        invariant currentId == batch[currentIndex].geomID
        invariant position - currentIndex <= RunSplit + 1
        invariant SameSurface(batch, currentIndex, position)
        invariant old(surfaceQueue) + Runs(batch, 0) == surfaceQueue + Runs(batch, currentIndex)
      {
        if currentId != batch[position].geomID {
          QueueRun(surfaceQueue, batch, currentIndex, position);
          surfaceQueue := surfaceQueue + [SurfaceTask(currentIndex, position)];
          currentId := batch[position].geomID;
          currentIndex := position;
        } else if position - currentIndex > 4096 {
          QueueRun(surfaceQueue, batch, currentIndex, position);
          surfaceQueue := surfaceQueue + [SurfaceTask(currentIndex, position)];
          currentIndex := position;
        }
      }
      RunsStep(batch, currentIndex, |batch|);
      surfaceQueue := surfaceQueue + [SurfaceTask(currentIndex, |batch|)];
    }

    /** `clear`: every pixel back to black and no pass accumulated; the samples stay. */
    method Clear()
      requires Valid()
      modifies pixels, this`iteration
      ensures Valid()
      ensures forall i :: 0 <= i < pixels.Length ==> pixels[i] == Black
      ensures samples[..] == old(samples[..])
      ensures iteration == 0
    {
      var pixelCount := width * height;
      for i := 0 to pixelCount
        invariant forall p :: 0 <= p < i ==> pixels[p] == Black
      {
        pixels[i] := Black;
      }
      iteration := 0;
    }

    /** The end of `process`: every pixel (x, y) gets the mean of its base² samples added,
        the pass count goes up by one and the new count is returned. The loop nest is that
        of `BoxFilter::convolve` over the whole image with base² samples per pixel. */
    method FinishPass() returns (pass: int)
      requires Valid() && 0 < base
      modifies pixels, this`iteration
      ensures Valid()
      ensures pixels[..] == PassAverage(old(pixels[..]), samples[..], width, height, base * base)
      ensures samples[..] == old(samples[..])
      ensures iteration == old(iteration) + 1 && pass == iteration
    {
      var sampleCount := base * base;
      MulMonotonic(1, base, base);
      ghost var before := pixels[..];
      Convolve(width, height, sampleCount, 0, width, 0, height, samples, pixels);
      FullFilterIsPassAverage(before, samples[..], width, height, sampleCount);
      iteration := iteration + 1;
      pass := iteration;
    }
  }

  /** Queueing the run [begin, e) that the partition loop has closed leaves the runs
      from e still to queue after it. */
  lemma QueueRun(queue: seq<SurfaceTask>, batch: seq<RayHit>, begin: nat, e: nat)
    requires begin < e <= |batch|
    requires SameSurface(batch, begin, e) && e - begin <= RunSplit + 1
    requires e == |batch| || batch[e].geomID != batch[begin].geomID || e - begin == RunSplit + 1
    ensures queue + Runs(batch, begin) == (queue + [SurfaceTask(begin, e)]) + Runs(batch, e)
  {
    RunsStep(batch, begin, e);
  }

  /** A pathtracer set up with the default image and bucket size. */
  method DefaultPathtracer() returns (tracer: Pathtracer)
    ensures tracer.Valid() && fresh(tracer) && fresh(tracer.samples) && fresh(tracer.pixels)
    ensures tracer.width == DefaultWidth && tracer.height == DefaultHeight
    ensures tracer.base == DefaultBase && tracer.bucketSize == DefaultBucketSize
    ensures tracer.samples.Length == 700 * 500 * 64 && tracer.pixels.Length == 700 * 500
    ensures tracer.iteration == 0
  {
    tracer := new Pathtracer(DefaultWidth, DefaultHeight, DefaultBase, DefaultBucketSize);
  }
}
