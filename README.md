# Pathtracer batch core in Dafny

This project models the sequential part of the `msc` progressive path tracer. That covers the
bookkeeping a pass does around its threads and its foreign intersection and shading calls:

- **The image accumulator.** A `width x height` pixel buffer and a `width x height x base²`
  sample buffer. Sample `k` of pixel `(x, y)` is stored at `x * height * base² + y * base² + k`,
  and pixel `(x, y)` at `y * width + x`. The model covers the allocation, `clear`, and the
  reduction at the end of `process` that adds each pixel's sample mean and counts the pass.
- **The box filter.** `BoxFilter::convolve` is the same reduction restricted to a rectangle of
  pixels.
- **The camera bucket tiling.** `camera_threads` cuts the image into `bucket_size` squares,
  clipped at the right and bottom edges. It queues them column of buckets by column of buckets.
- **The shading order and run partition.** A batch of intersected rays is sorted by
  `operator<` on `(geomID, primID)`. `surface_threads` then cuts it into runs of rays that hit
  the same surface. A run is also cut once it holds more than 4096 rays.

Modules:

- `Arithmetic`: multiplication and division facts.
- `Colours`: RGB triples of reals, their sum and mean.
- `ImageLayout`: the two index maps and the reference definitions `Filtered` and
  `PassAverage` of what a filter and a pass do to the pixel buffer.
- `Tiling`: `CameraTask` and the tiling `Tiles`.
- `ShadingOrder`: `RayHit`, `Less` and `Sorted`.
- `SurfaceRuns`: `SurfaceTask` and the reference partition `Runs`.
- `BoxFilter`: the `Convolve` method.
- `Pathtracing`: the class `Pathtracer`, whose fields are the image buffers, the pass counter
  and the two task queues.

The methods that loop in the source loop here too, and each is proved equal to its reference
definition:

- `CameraThreads` queues exactly `Tiles(width, height, bucketSize)`.
- `SurfaceThreads` queues exactly `Runs(batch, 0)`.
- `Convolve` leaves the pixel buffer equal to `Filtered(...)`.
- `FinishPass` leaves it equal to `PassAverage(...)`.

The lemmas prove what the rest of the program relies on about those definitions. Every pixel lies in exactly
one bucket. The runs partition the batch in order and each hits one surface. Filtering the
buckets one by one equals one filter over the whole image. Every sample is read exactly once.

In three places the code behaves differently from what its settings and structure might lead
one to expect, and the model follows the code:

- **Run cap.** Runs might be expected to be capped at the configured `shading_size`, which
  defaults to 4096 (src/core/Pathtracer.cpp:57). A batch whose rays all hit one surface might
  then be expected to give one shading run.
  - The code instead compares against the literal 4096 (src/core/Pathtracer.cpp:284) with a
    strict `>`, so a run holds up to 4097 rays (`RunSplit + 1`).
  - A one-surface batch of more than 4097 rays is therefore split (`LongSingleSurfaceSplits`).
  - A batch in `process` holds 2^`batch_exponent` rays (2^25 by default,
    src/core/Pathtracer.cpp:59).
- **Missed rays.** A ray that hits nothing might be expected to go to no shading run.
  - `surface_threads` (src/core/Pathtracer.cpp:267-300) has no miss case. The rays that carry
    the miss id form runs and are queued like the rays of any other surface.
  - In `RayHit` a miss is just another `geomID`, so `SurfaceThreads` queues those runs too.
- **Final reduction.** `construct` builds a filter object, a `TentFilter`
  (src/core/Pathtracer.cpp:90-100), but `process` never calls it. It inlines a box-filter
  reduction instead (src/core/Pathtracer.cpp:393-418).
  - Those loops are the same loop nest as `BoxFilter::convolve` over the whole image with
    `base²` samples per pixel, so `FinishPass` runs `Convolve` over `[0, width) x [0, height)`.
  - `FullFilterIsPassAverage` states that this is the per-pixel update of the inline loops.

## Model

| member | source | states |
|---|---|---|
| ImageLayout.SampleIndex | src/core/Pathtracer.cpp:402-408 | the offset of sample k of pixel (x, y) is below width·height·spp, the size allocated at Pathtracer.cpp:37-38, and decodes back to k, y and x (the same offset is read at BoxFilter.cpp:25) |
| ImageLayout.SampleCoords | src/core/Pathtracer.cpp:394-408 | every offset of the sample buffer is the slot of some in-range (x, y, k), so the reduction reads every sample |
| ImageLayout.SampleIndexInjective | src/core/BoxFilter.cpp:23-29 | two distinct (x, y, k) never read the same sample slot, so no sample is read twice |
| ImageLayout.PixelIndex | src/core/Pathtracer.cpp:410 | the pixel offset y·width + x is below width·height (the size allocated at Pathtracer.cpp:40-41) and decodes back to (x, y) |
| ImageLayout.PixelCoords | src/core/BoxFilter.cpp:31 | every offset of the pixel buffer is the offset of exactly one in-range pixel |
| ImageLayout.PixelIndexInjective | src/core/BoxFilter.cpp:31-34 | distinct pixels are written at distinct offsets |
| ImageLayout.PixelMean | src/core/BoxFilter.cpp:21-33 | the mean of the spp consecutive samples of pixel (x, y), the summation divided by the sample count (also src/core/Pathtracer.cpp:397-412) |
| ImageLayout.Filtered | src/core/BoxFilter.cpp:17-34 | the reference definition of one filter: a pixel buffer of the same size where each pixel in [rowsBegin, rowsEnd) x [colsBegin, colsEnd) has its `PixelMean` added; its meaning is `FilteredAt` |
| ImageLayout.PassAverage | src/core/Pathtracer.cpp:393-415 | the reference definition of the end of a pass: a pixel buffer of the same size where every pixel has its `PixelMean` added; its meaning is `PassAverageAt` |
| ImageLayout.FilteredAt | src/core/BoxFilter.cpp:17-34 | after a filter over [rowsBegin, rowsEnd) x [colsBegin, colsEnd), pixel (x, y) has its sample mean added exactly when it is inside the range and is unchanged otherwise |
| ImageLayout.FilteredEmpty | src/core/BoxFilter.cpp:17-19 | a filter whose row or column range is empty changes no pixel |
| ImageLayout.FilteredAddPixel | src/core/BoxFilter.cpp:19-34 | one more step of the column loop adds the mean to pixel (x, y) only, which was still unfiltered |
| ImageLayout.FilteredAddColumn | src/core/BoxFilter.cpp:17-35 | filtering column x after columns [rowsBegin, x) is one filter of [rowsBegin, x + 1) |
| ImageLayout.PassAverageAt | src/core/Pathtracer.cpp:394-415 | after a pass, pixel (x, y) has the mean of its base² samples added |
| ImageLayout.FullFilterIsPassAverage | src/core/Pathtracer.cpp:394-415 | a box filter over the whole image [0, width) x [0, height) is exactly the end-of-pass update of the pixel buffer |
| BoxFilter.SampleSum | src/core/BoxFilter.cpp:21-29 | the accumulated summation divided by the sample count is the mean of the samples of pixel (x, y) |
| BoxFilter.ConvolveColumn | src/core/BoxFilter.cpp:19-35 | the column loop leaves the pixels equal to the filter of column x over [colsBegin, colsEnd) |
| BoxFilter.Convolve | src/core/BoxFilter.cpp:5-37 | the pixel buffer becomes `Filtered` of its old contents over the given rows and columns, so only pixels in the range change, each by its sample mean; the sample buffer is not written |
| BoxFilter.ConvolveTasks | src/core/BoxFilter.cpp:5-37 | filtering one camera task after another, each a `convolve` over the task's rectangle, keeps the buffer size; its effect is `ConvolveDisjointTasksAt` |
| BoxFilter.ConvolveDisjointTasksAt | src/core/BoxFilter.cpp:17-34 | after filtering a sequence of pairwise disjoint tasks, a pixel has its mean added once if some task covers it and is unchanged otherwise |
| BoxFilter.TiledConvolveIsWhole | src/core/BoxFilter.cpp:17-34 | filtering the camera buckets one after another gives the same pixels as one filter over the whole image |
| Tiling.CeilDiv | src/core/Pathtracer.cpp:231-232 | `ceil(a / float(b))` as integer division rounded up: the quotient, plus one when the division leaves a remainder; its bounds are `CeilDivBounds` |
| Tiling.CeilDivBounds | src/core/Pathtracer.cpp:231-232 | the bucket count along an axis is the least r with a ≤ r·b |
| Tiling.Tile | src/core/Pathtracer.cpp:239-252 | bucket (i, j) begins at (i·bucketSize, j·bucketSize) and ends bucketSize further on, or at the image edge where that comes first, as the clipped task_width and task_height give; its shape is `TileShape` |
| Tiling.Tiles | src/core/Pathtracer.cpp:231-256 | the reference queue of the camera stage: element k is bucket (k / countY, k % countY), so j runs fastest as in the nested loops; its properties are `TileCount`, `TilesAt` and `TilingCoversOnce` |
| Tiling.TileCount | src/core/Pathtracer.cpp:231-236 | the tiling has exactly ceil(width/bucketSize)·ceil(height/bucketSize) tasks |
| Tiling.TilesIndex | src/core/Pathtracer.cpp:234-254 | element k of the tiling is bucket (k / countY, k % countY), with a column index below ceil(width/bucketSize) |
| Tiling.TilesAt | src/core/Pathtracer.cpp:234-254 | the task queued at position i·countY + j is bucket (i, j) |
| Tiling.BucketStartsInside | src/core/Pathtracer.cpp:240-246 | a bucket below the count starts inside the image, so the clipped width and height never underflow |
| Tiling.TileShape | src/core/Pathtracer.cpp:239-252 | every task is non-empty, ends inside the image and is at most bucketSize wide and high |
| Tiling.TileContains | src/core/Pathtracer.cpp:249-252 | a pixel of the image lies in bucket (i, j) exactly when i = x / bucketSize and j = y / bucketSize |
| Tiling.CoveringIndex | src/core/Pathtracer.cpp:234-254 | the task at position CoveringTask(x, y) exists and holds pixel (x, y) |
| Tiling.OnlyCoveringIndex | src/core/Pathtracer.cpp:234-254 | a task that holds pixel (x, y) is at position CoveringTask(x, y) |
| Tiling.TilingCoversOnce | src/core/Pathtracer.cpp:234-256 | every pixel of the image lies in exactly one task: a task holds it if and only if it is at position CoveringTask(x, y) |
| Tiling.TilesDisjoint | src/core/Pathtracer.cpp:234-256 | no pixel lies in two tasks |
| ShadingOrder.Less | src/core/Pathtracer.cpp:347-350 | lexicographic order on (geomID, primID), term for term as line 349; a strict order by `LessIrreflexive`, `LessAsymmetric` and `LessTransitive` |
| ShadingOrder.LessIrreflexive | src/core/Pathtracer.cpp:347-350 | no ray is less than itself |
| ShadingOrder.LessAsymmetric | src/core/Pathtracer.cpp:347-350 | a < b excludes b < a |
| ShadingOrder.LessTransitive | src/core/Pathtracer.cpp:347-350 | a < b and b < c give a < c |
| ShadingOrder.LessConnected | src/core/Pathtracer.cpp:347-350 | rays with different (geomID, primID) are ordered one way or the other |
| ShadingOrder.Sorted | src/core/Pathtracer.cpp:381 | what the sort by `operator<` leaves: no ray is less than the ray before it |
| ShadingOrder.SortedPairwise | src/core/Pathtracer.cpp:381 | in a batch sorted by `operator<` no ray is less than an earlier one |
| ShadingOrder.SortedGeomNonDecreasing | src/core/Pathtracer.cpp:381 | in a sorted batch the geomIDs never decrease |
| ShadingOrder.SortedSurfacesContiguous | src/core/Pathtracer.cpp:381 | in a sorted batch the rays of one surface are contiguous |
| SurfaceRuns.RunEnd | src/core/Pathtracer.cpp:271-293 | the scan for the end of a run stops inside the batch, at a surface change, at the end of the batch or at RunSplit + 1 rays, and all rays before that point hit the run's surface |
| SurfaceRuns.Runs | src/core/Pathtracer.cpp:267-300 | every run is a non-empty span inside the batch and the runs are in increasing order |
| SurfaceRuns.RunEndFrom | src/core/Pathtracer.cpp:271-284 | the scan for the end of a run may resume at any ray still known to belong to it |
| SurfaceRuns.RunsStep | src/core/Pathtracer.cpp:273-292 | a same-surface span that the loop cuts, at a surface change, at the batch end or at RunSplit + 1 rays, is the first run, and the runs from its end follow it |
| SurfaceRuns.RunsPartition | src/core/Pathtracer.cpp:269-300 | the first run begins at 0, each run ends where the next begins, and the last run ends at the batch size |
| SurfaceRuns.RunsSameSurface | src/core/Pathtracer.cpp:273-292 | every ray of a run hit the same surface, and no run holds more than 4097 rays |
| SurfaceRuns.RunsCutAtSurfaceChange | src/core/Pathtracer.cpp:273-282 | every ray whose geomID differs from the previous ray's begins a run |
| SurfaceRuns.RunsCutReason | src/core/Pathtracer.cpp:273-292 | a run after the first begins at a surface change or right after a run of exactly 4097 rays |
| SurfaceRuns.RunsReassemble | src/core/Pathtracer.cpp:267-300 | the runs laid end to end are exactly the batch, in its order |
| SurfaceRuns.SingleSurfaceSingleRun | src/core/Pathtracer.cpp:284-300 | a one-surface batch of at most 4097 rays is a single run |
| SurfaceRuns.LongSingleSurfaceSplits | src/core/Pathtracer.cpp:284-292 | a one-surface batch of more than 4097 rays is split, with a first run of exactly 4097 rays |
| SurfaceRuns.SortedRunsContiguous | src/core/Pathtracer.cpp:381 | in a sorted batch, a run between two runs of one surface is a run of that surface |
| Pathtracing.Pathtracer.constructor | src/core/Pathtracer.cpp:37-47 | the sample buffer holds width·height·base² samples, the pixel buffer width·height pixels all set to black, no pass is counted and both queues are empty |
| Pathtracing.DefaultPathtracer | src/core/Pathtracer.cpp:29-32 | with the image defaults of lines 29-31 (700 x 500 pixels, base 8) and the bucket size 16 of Pathtracer.cpp:56, the buffers hold 700·500·64 samples and 700·500 pixels |
| Pathtracing.Pathtracer.BucketTask | src/core/Pathtracer.cpp:239-252 | the clipped width and height the loop computes give bucket (i, j) of the tiling |
| Pathtracing.Pathtracer.CameraThreads | src/core/Pathtracer.cpp:228-256 | the tasks appended to the camera queue are exactly the tiling, in order |
| Pathtracing.QueueRun | src/core/Pathtracer.cpp:275-292 | queueing a run the loop has closed leaves exactly the runs from its end still to queue |
| Pathtracing.Pathtracer.SurfaceThreads | src/core/Pathtracer.cpp:267-300 | the tasks appended to the shading queue are exactly the runs of the batch, in order |
| Pathtracing.Pathtracer.Clear | src/core/Pathtracer.cpp:334-345 | the buffer sizes are kept, every pixel is black, the pass count is 0 and the samples are unchanged |
| Pathtracing.Pathtracer.FinishPass | src/core/Pathtracer.cpp:393-418 | the buffer sizes are kept, every pixel has the mean of its base² samples added, the samples are unchanged, the pass count rises by exactly one and the new count is returned |

## Left out

- Scene construction (src/core/Pathtracer.cpp:19-188) is left out: YAML parsing and the Embree
  scene calls are foreign. Its image defaults and settings default bucket size are the
  constructor's parameters and the constants of `DefaultPathtracer`.
  - The YAML `convert` specialisations of the settings, shader and sampler are left out as
    wrappers over a foreign library.
  - Settings' `encode` writes the bucket size under "shading size" and nests its keys, while
    `decode` reads a flat map, so there is no round trip to state.
- The threads are left out: `create_threads`, the `start`/`join` calls after each queue is
  filled, the camera and shading workers, and the concurrent queues' thread safety.
  - A queue is a sequence the loops append to.
- The batch loop of `process` (src/core/Pathtracer.cpp:352-386) is left out: file I/O,
  decompression, bounding boxes, the spatial ray sort (`RaySort`, keyed on the bounding box), intersection and the TBB parallel
  algorithms are foreign or not part of this model.
  - Of that loop only the comparator and the partition after the sort are modelled. The sort
    itself is a hypothesis (`Sorted`) of the lemmas that need it.
- `Pathtracer::image` is left out. It hands a raw pointer to the pixels, and a pointer export
  has no behaviour to model.
  - The headers `Scene.h` and `FilterInterface.h` declare types only.
- Colour channels are single-precision floats in the source and are exact reals here. Float
  rounding, the flush-to-zero and denormals-are-zero modes, and NaN are not modelled.
- Image.h is not part of this model, so the field types of `Image` are assumed: the sizes are
  unsigned and `iteration` is an `int`. No wrap-around of `size_t` index arithmetic or of
  `iteration += 1` is modelled.
  - Pathtracing.Pathtracer.constructor: the initial values of the sample buffer are not stated.
    `samples.resize` (src/core/Pathtracer.cpp:38) value-initialises them, but what that gives
    depends on the sample type declared in Image.h.
- The bucket counts use `ceil(a / float(b))` in the source, modelled as exact integer ceiling
  division. For images too large to be represented exactly as a float the two may differ.
- `RayHit` keeps only `geomID` and `primID` of the uncompressed ray, the fields the comparator
  and the partition read.
- Pathtracing.Pathtracer.CameraThreads: requires a positive bucket size; with bucket size 0 the
  source converts an infinite float to `size_t`, which is undefined.
- Pathtracing.Pathtracer.FinishPass: requires a positive base. With base 0 the source divides
  0 by 0 in float arithmetic and adds NaN to every pixel, which reals cannot express.
- BoxFilter.Convolve: requires a positive sample count and an output buffer of exactly
  width·height pixels. The source accepts any buffers its indices fit in (with zero samples it
  divides by zero).
  - The requirement that the two buffers are distinct reflects their different element types
    in the source.
- Pathtracing.Pathtracer.SurfaceThreads: requires a non-empty batch, because the source reads
  the first ray before the loop.
