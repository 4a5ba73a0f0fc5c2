/** The bucket tiling of the camera stage (src/core/Pathtracer.cpp:228-256): a
    width x height image is cut into bucketSize x bucketSize tiles, clipped at the right and
    bottom edges, enumerated column of tiles by column of tiles. */
module Tiling {
  import opened Arithmetic

  /** One camera bucket: the pixels x in [beginX, endX), y in [beginY, endY). */
  datatype CameraTask = CameraTask(beginX: nat, beginY: nat, endX: nat, endY: nat)

  predicate InTile(t: CameraTask, x: nat, y: nat)
  {
    t.beginX <= x < t.endX && t.beginY <= y < t.endY
  }

  /** No pixel lies in two tasks of the sequence. */
  ghost predicate PairwiseDisjoint(tasks: seq<CameraTask>)
  {
    forall k1, k2, x: nat, y: nat :: 0 <= k1 < k2 < |tasks| && InTile(tasks[k1], x, y) ==> !InTile(tasks[k2], x, y)
  }

  /** `ceil(a / float(b))`, the number of buckets needed along an axis of a pixels. */
  function CeilDiv(a: nat, b: nat): nat
    requires 0 < b
  {
    var q := a / b;
    if a % b == 0 then q else q + 1
  }

  /** CeilDiv(a, b) is the least r with a <= r * b: r buckets cover the axis and r - 1 do not. */
  lemma CeilDivBounds(a: nat, b: nat)
    requires 0 < b
    ensures a <= CeilDiv(a, b) * b < a + b
  {
    var q, r := a / b, a % b;
    assert a == q * b + r;
    if r != 0 {
      assert (q + 1) * b == q * b + b;
    }
  }

  function Min(a: nat, b: nat): nat
  {
    if a <= b then a else b
  }

  /** Bucket (i, j): it starts at (i * bucketSize, j * bucketSize) and is clipped to the image. */
  function Tile(i: nat, j: nat, width: nat, height: nat, bucketSize: nat): CameraTask
  {
    CameraTask(i * bucketSize, j * bucketSize,
               Min(i * bucketSize + bucketSize, width), Min(j * bucketSize + bucketSize, height))
  }

  /** All buckets of the image in the order the camera stage queues them: bucket (i, j)
      is the (i * CeilDiv(height, bucketSize) + j)-th. */
  function Tiles(width: nat, height: nat, bucketSize: nat): (tiles: seq<CameraTask>)
    requires 0 < bucketSize
  {
    var countY := CeilDiv(height, bucketSize);
    if countY == 0 then []
    else seq(CeilDiv(width, bucketSize) * countY, k requires 0 <= k => Tile(k / countY, k % countY, width, height, bucketSize))
  }

  lemma TileCount(width: nat, height: nat, bucketSize: nat)
    requires 0 < bucketSize
    ensures |Tiles(width, height, bucketSize)| == CeilDiv(width, bucketSize) * CeilDiv(height, bucketSize)
  {
  }

  /** Element k of the tiling is bucket (k / countY, k % countY), and that bucket's column
      index is below the bucket count along x. */
  lemma TilesIndex(width: nat, height: nat, bucketSize: nat, k: nat)
    requires 0 < bucketSize
    requires k < |Tiles(width, height, bucketSize)|
    ensures var countY := CeilDiv(height, bucketSize);
      && 0 < countY && k / countY < CeilDiv(width, bucketSize)
      && Tiles(width, height, bucketSize)[k] == Tile(k / countY, k % countY, width, height, bucketSize)
  {
    var countX, countY := CeilDiv(width, bucketSize), CeilDiv(height, bucketSize);
    assert countY != 0;
    assert k < countY * countX;
    DivBelow(k, countY, countX);
  }

  /** Element i * countY + j of the tiling is bucket (i, j). */
  lemma TilesAt(width: nat, height: nat, bucketSize: nat, i: nat, j: nat)
    requires 0 < bucketSize
    requires i < CeilDiv(width, bucketSize) && j < CeilDiv(height, bucketSize)
    ensures i * CeilDiv(height, bucketSize) + j < |Tiles(width, height, bucketSize)|
    ensures Tiles(width, height, bucketSize)[i * CeilDiv(height, bucketSize) + j] == Tile(i, j, width, height, bucketSize)
  {
    var countX, countY := CeilDiv(width, bucketSize), CeilDiv(height, bucketSize);
    var k := i * countY + j;
    DivModOfPair(i, j, countY);
    assert k / countY == i && k % countY == j;
    MulMonotonic(i + 1, countX, countY);
    assert (i + 1) * countY == k - j + countY;
    assert k < |Tiles(width, height, bucketSize)|;
    TilesIndex(width, height, bucketSize, k);
  }

  /** Bucket i along an axis of a pixels whose index is below the bucket count starts
      inside the image, so the clipped width a - i * b of the source never underflows. */
  lemma BucketStartsInside(i: nat, a: nat, b: nat)
    requires 0 < b && i < CeilDiv(a, b)
    ensures i * b < a
  {
    CeilDivBounds(a, b);
    MulMonotonic(i + 1, CeilDiv(a, b), b);
    assert (i + 1) * b == i * b + b;
  }

  /** Every bucket is non-empty, inside the image, and at most bucketSize wide and high. */
  lemma TileShape(width: nat, height: nat, bucketSize: nat, k: nat)
    requires 0 < bucketSize
    requires k < |Tiles(width, height, bucketSize)|
    ensures var t := Tiles(width, height, bucketSize)[k];
      && t.beginX < t.endX <= width && t.beginY < t.endY <= height
      && t.endX - t.beginX <= bucketSize && t.endY - t.beginY <= bucketSize
  {
    var countY := CeilDiv(height, bucketSize);
    TilesIndex(width, height, bucketSize, k);
    BucketStartsInside(k / countY, width, bucketSize);
    BucketStartsInside(k % countY, height, bucketSize);
  }

  /** A bucket position i * b <= x < i * b + b determines i. */
  lemma BucketOf(x: nat, b: nat, i: nat)
    requires 0 < b
    ensures i * b <= x < i * b + b <==> i == x / b
  {
    if i * b <= x < i * b + b {
      DivModOfPair(i, x - i * b, b);
    } else {
      DivModOfPair(x / b, x % b, b);
    }
  }

  /** The bucket of a coordinate inside the image has an index below the bucket count. */
  lemma BucketBelowCount(x: nat, a: nat, b: nat)
    requires 0 < b && x < a
    ensures x / b < CeilDiv(a, b)
  {
    CeilDivBounds(a, b);
    var q := x / b;
    assert q * b <= x;
    if q >= CeilDiv(a, b) {
      MulMonotonic(CeilDiv(a, b), q, b);
      assert false;
    }
  }

  /** A pixel of the image lies in bucket (i, j) exactly when i and j are its coordinates
      divided by the bucket size. */
  lemma TileContains(width: nat, height: nat, bucketSize: nat, i: nat, j: nat, x: nat, y: nat)
    requires 0 < bucketSize && x < width && y < height
    ensures InTile(Tile(i, j, width, height, bucketSize), x, y) <==> i == x / bucketSize && j == y / bucketSize
  {
    BucketOf(x, bucketSize, i);
    BucketOf(y, bucketSize, j);
  }

  /** The position in the camera queue of the bucket of pixel (x, y). */
  function CoveringTask(x: nat, y: nat, height: nat, bucketSize: nat): nat
    requires 0 < bucketSize
  {
    var i: nat, j: nat, countY: nat := x / bucketSize, y / bucketSize, CeilDiv(height, bucketSize);
    MulMonotonic(0, i, countY);
    i * countY + j
  }

  /** The bucket that holds pixel (x, y) has index
      CoveringTask(x, y, height, bucketSize). */
  lemma CoveringIndex(width: nat, height: nat, bucketSize: nat, x: nat, y: nat)
    requires 0 < bucketSize && x < width && y < height
    ensures CoveringTask(x, y, height, bucketSize) < |Tiles(width, height, bucketSize)|
    ensures InTile(Tiles(width, height, bucketSize)[CoveringTask(x, y, height, bucketSize)], x, y)
  {
    var countX, countY := CeilDiv(width, bucketSize), CeilDiv(height, bucketSize);
    var i, j := x / bucketSize, y / bucketSize;
    BucketBelowCount(x, width, bucketSize);
    BucketBelowCount(y, height, bucketSize);
    TilesAt(width, height, bucketSize, i, j);
    assert CoveringTask(x, y, height, bucketSize) == i * countY + j;
    TileContains(width, height, bucketSize, i, j, x, y);
  }

  /** Bucket k holds pixel (x, y) only if k is that covering index. */
  lemma OnlyCoveringIndex(width: nat, height: nat, bucketSize: nat, x: nat, y: nat, k: nat)
    requires 0 < bucketSize && x < width && y < height
    requires k < |Tiles(width, height, bucketSize)|
    requires InTile(Tiles(width, height, bucketSize)[k], x, y)
    ensures k == CoveringTask(x, y, height, bucketSize)
  {
    var countY := CeilDiv(height, bucketSize);
    TilesIndex(width, height, bucketSize, k);
    var i', j' := k / countY, k % countY;
    TileContains(width, height, bucketSize, i', j', x, y);
    assert k == i' * countY + j';
    assert CoveringTask(x, y, height, bucketSize) == i' * countY + j';
  }

  /** Every pixel of the image lies in exactly one bucket: the one with index
      CoveringTask(x, y, height, bucketSize). */
  lemma TilingCoversOnce(width: nat, height: nat, bucketSize: nat, x: nat, y: nat)
    requires 0 < bucketSize && x < width && y < height
    ensures CoveringTask(x, y, height, bucketSize) < |Tiles(width, height, bucketSize)|
    ensures forall k :: 0 <= k < |Tiles(width, height, bucketSize)| ==>
      (InTile(Tiles(width, height, bucketSize)[k], x, y) <==> k == CoveringTask(x, y, height, bucketSize))
  {
    var tiles := Tiles(width, height, bucketSize);
    CoveringIndex(width, height, bucketSize, x, y);
    forall k | 0 <= k < |tiles| && InTile(tiles[k], x, y)
      ensures k == CoveringTask(x, y, height, bucketSize)
    {
      OnlyCoveringIndex(width, height, bucketSize, x, y, k);
    }
  }

  /** No pixel, inside the image or not, lies in two buckets. */
  lemma TilesDisjoint(width: nat, height: nat, bucketSize: nat)
    requires 0 < bucketSize
    ensures PairwiseDisjoint(Tiles(width, height, bucketSize))
  {
    var tiles := Tiles(width, height, bucketSize);
    forall k1, k2, x: nat, y: nat | 0 <= k1 < k2 < |tiles| && InTile(tiles[k1], x, y)
      ensures !InTile(tiles[k2], x, y)
    {
      TileShape(width, height, bucketSize, k1);
      TilingCoversOnce(width, height, bucketSize, x, y);
    }
  }
}
