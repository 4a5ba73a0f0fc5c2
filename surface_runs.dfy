/** The run partition of a sorted batch into shading tasks
    (src/core/Pathtracer.cpp:267-300). A run starts at the first ray not yet covered and
    extends over the following rays of the same surface, but a run is cut as soon as it
    holds more than RunSplit rays; the last run ends at the end of the batch. */
module SurfaceRuns {
  import opened ShadingOrder

  /** One shading task: the rays [begin, end) of the batch. */
  datatype SurfaceTask = SurfaceTask(begin: nat, end: nat)

  /** The split threshold of the partition loop. A run is cut when it already holds more
      than RunSplit rays, so a run holds at most RunSplit + 1 rays. The loop uses this
      literal, not the configured shading size. */
  const RunSplit: nat := 4096

  /** Every ray in [begin, end) hit the surface that ray `begin` hit. */
  predicate SameSurface(batch: seq<RayHit>, begin: nat, end: nat)
    requires begin < |batch| && end <= |batch|
  {
    forall t :: begin <= t < end ==> batch[t].geomID == batch[begin].geomID
  }

  /** Where the run that starts at `begin` ends, scanning from j: at the end of the
      batch, at the first ray of another surface, or once the run holds RunSplit + 1 rays,
      whichever comes first. */
  function RunEnd(batch: seq<RayHit>, begin: nat, j: nat): (e: nat)
    requires begin < j <= |batch|
    requires SameSurface(batch, begin, j) && j - begin <= RunSplit + 1
    ensures j <= e <= |batch| && e - begin <= RunSplit + 1
    ensures SameSurface(batch, begin, e)
    ensures e == |batch| || batch[e].geomID != batch[begin].geomID || e - begin == RunSplit + 1
    decreases |batch| - j
  {
    if j == |batch| || batch[j].geomID != batch[begin].geomID || j - begin > RunSplit then j
    else RunEnd(batch, begin, j + 1)
  }

  /** The runs that cover the rays [begin, |batch|) of the batch, in order. Every run is a
      non-empty span inside the batch, and each lies after the runs before it. */
  function Runs(batch: seq<RayHit>, begin: nat): (runs: seq<SurfaceTask>)
    requires begin <= |batch|
    ensures forall k :: 0 <= k < |runs| ==> begin <= runs[k].begin < runs[k].end <= |batch|
    ensures forall k1, k2 :: 0 <= k1 < k2 < |runs| ==> runs[k1].end <= runs[k2].begin
    decreases |batch| - begin
  {
    if begin == |batch| then []
    else
      var e := RunEnd(batch, begin, begin + 1);
      [SurfaceTask(begin, e)] + Runs(batch, e)
  }

  /** Scanning for the end of a run may start at any ray known to still belong to it. */
  lemma {:induction false} RunEndFrom(batch: seq<RayHit>, begin: nat, j: nat, j': nat)
    requires begin < j <= j' <= |batch|
    requires SameSurface(batch, begin, j') && j' - begin <= RunSplit + 1
    ensures RunEnd(batch, begin, j) == RunEnd(batch, begin, j')
    decreases j' - j
  {
    if j < j' {
      RunEndFrom(batch, begin, j + 1, j');
    }
  }

  /** A span [begin, e) of one surface that the scan must stop at is the first run, and
      the runs from e follow it. */
  lemma RunsStep(batch: seq<RayHit>, begin: nat, e: nat)
    requires begin < e <= |batch|
    requires SameSurface(batch, begin, e) && e - begin <= RunSplit + 1
    requires e == |batch| || batch[e].geomID != batch[begin].geomID || e - begin == RunSplit + 1
    ensures Runs(batch, begin) == [SurfaceTask(begin, e)] + Runs(batch, e)
  {
    RunEndFrom(batch, begin, begin + 1, e);
  }

  /** The runs tile [begin, |batch|): the first starts at begin, each ends where the next
      starts, and the last ends at the end of the batch. */
  lemma {:induction false} RunsPartition(batch: seq<RayHit>, begin: nat)
    requires begin < |batch|
    ensures var runs := Runs(batch, begin);
      && 1 <= |runs| && runs[0].begin == begin && runs[|runs| - 1].end == |batch|
      && forall k :: 0 <= k < |runs| - 1 ==> runs[k].end == runs[k + 1].begin
    decreases |batch| - begin
  {
    var e := RunEnd(batch, begin, begin + 1);
    if e < |batch| {
      RunsPartition(batch, e);
    }
  }

  /** Each run hits a single surface and holds at most RunSplit + 1 rays. */
  lemma {:induction false} RunsSameSurface(batch: seq<RayHit>, begin: nat)
    requires begin <= |batch|
    ensures var runs := Runs(batch, begin);
      forall k :: 0 <= k < |runs| ==>
        SameSurface(batch, runs[k].begin, runs[k].end) && runs[k].end - runs[k].begin <= RunSplit + 1
    decreases |batch| - begin
  {
    if begin < |batch| {
      var e := RunEnd(batch, begin, begin + 1);
      var runs := Runs(batch, begin);
      assert runs[1..] == Runs(batch, e);
      RunsSameSurface(batch, e);
      forall k | 0 < k < |runs|
        ensures SameSurface(batch, runs[k].begin, runs[k].end) && runs[k].end - runs[k].begin <= RunSplit + 1
      {
        assert runs[k] == Runs(batch, e)[k - 1];
      }
    }
  }

  /** A surface change always starts a run: every ray i whose surface differs from that of
      ray i - 1 is the first ray of some run. */
  lemma {:induction false} RunsCutAtSurfaceChange(batch: seq<RayHit>, begin: nat, i: nat)
    requires begin < i < |batch|
    requires batch[i].geomID != batch[i - 1].geomID
    ensures exists k :: 0 <= k < |Runs(batch, begin)| && Runs(batch, begin)[k].begin == i
    decreases |batch| - begin
  {
    var e := RunEnd(batch, begin, begin + 1);
    var runs := Runs(batch, begin);
    if i < e {
      assert false;
    } else if i == e {
      assert runs[1].begin == i;
    } else {
      RunsCutAtSurfaceChange(batch, e, i);
      var k :| 0 <= k < |Runs(batch, e)| && Runs(batch, e)[k].begin == i;
      assert runs[k + 1].begin == i;
    }
  }

  /** A run starts only where it must: each run after the first begins at a surface
      change or right after a run that reached RunSplit + 1 rays (a split of one surface). */
  lemma {:induction false} RunsCutReason(batch: seq<RayHit>, begin: nat, k: nat)
    requires begin <= |batch|
    requires 0 < k < |Runs(batch, begin)|
    ensures var runs := Runs(batch, begin);
      batch[runs[k].begin].geomID != batch[runs[k].begin - 1].geomID
      || runs[k - 1].end - runs[k - 1].begin == RunSplit + 1
    decreases |batch| - begin
  {
    var e := RunEnd(batch, begin, begin + 1);
    var runs := Runs(batch, begin);
    var rest := Runs(batch, e);
    assert runs == [SurfaceTask(begin, e)] + rest;
    if k == 1 {
      assert e < |batch|;
      RunsPartition(batch, e);
      assert runs[1].begin == e;
      assert batch[e - 1].geomID == batch[begin].geomID;
    } else {
      RunsCutReason(batch, e, k - 1);
      assert runs[k] == rest[k - 1] && runs[k - 1] == rest[k - 2];
    }
  }

  /** The rays of the runs, laid end to end. */
  function Pieces(batch: seq<RayHit>, runs: seq<SurfaceTask>): seq<RayHit>
    requires forall k :: 0 <= k < |runs| ==> runs[k].begin <= runs[k].end <= |batch|
  {
    if runs == [] then [] else batch[runs[0].begin..runs[0].end] + Pieces(batch, runs[1..])
  }

  /** Splitting never reorders: the runs laid end to end are exactly the batch. */
  lemma {:induction false} RunsReassemble(batch: seq<RayHit>, begin: nat)
    requires begin <= |batch|
    ensures Pieces(batch, Runs(batch, begin)) == batch[begin..]
    decreases |batch| - begin
  {
    if begin < |batch| {
      var e := RunEnd(batch, begin, begin + 1);
      var runs := Runs(batch, begin);
      assert runs[1..] == Runs(batch, e);
      RunsReassemble(batch, e);
      assert batch[begin..e] + batch[e..] == batch[begin..];
    }
  }

  /** A batch of at most RunSplit + 1 rays that all hit one surface is a single run. */
  lemma SingleSurfaceSingleRun(batch: seq<RayHit>)
    requires 1 <= |batch| <= RunSplit + 1
    requires forall i :: 0 <= i < |batch| ==> batch[i].geomID == batch[0].geomID
    ensures Runs(batch, 0) == [SurfaceTask(0, |batch|)]
  {
    RunEndFrom(batch, 0, 1, |batch|);
  }

  /** A batch of more than RunSplit + 1 rays that all hit one surface is split anyway: its
      first run holds exactly RunSplit + 1 rays and at least one more run follows. */
  lemma LongSingleSurfaceSplits(batch: seq<RayHit>)
    requires RunSplit + 1 < |batch|
    requires forall i :: 0 <= i < |batch| ==> batch[i].geomID == batch[0].geomID
    ensures 2 <= |Runs(batch, 0)| && Runs(batch, 0)[0] == SurfaceTask(0, RunSplit + 1)
  {
    RunsStep(batch, 0, RunSplit + 1);
  }

  /** In a sorted batch the runs of one surface are consecutive: a run between two runs of
      surface g is also a run of surface g. */
  lemma SortedRunsContiguous(batch: seq<RayHit>, k1: nat, k2: nat, k3: nat)
    requires Sorted(batch)
    requires k1 <= k2 <= k3 < |Runs(batch, 0)|
    requires batch[Runs(batch, 0)[k1].begin].geomID == batch[Runs(batch, 0)[k3].begin].geomID
    ensures batch[Runs(batch, 0)[k2].begin].geomID == batch[Runs(batch, 0)[k1].begin].geomID
  {
    var runs := Runs(batch, 0);
    SortedSurfacesContiguous(batch, runs[k1].begin, runs[k2].begin, runs[k3].begin);
  }
}
