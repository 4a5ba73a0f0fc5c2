/** The shading order of a batch (src/core/Pathtracer.cpp:347-350, 381): after
    intersection a batch is sorted by hit surface and then by hit primitive, so that the
    rays that hit one surface lie next to each other. */
module ShadingOrder {

  /** The part of an intersected ray that the shading order and the run partition read:
      the id of the surface it hit and of the primitive within that surface. */
  datatype RayHit = RayHit(geomID: int, primID: int)

  /** `operator<` on rays: lexicographic on (geomID, primID). */
  predicate Less(lhs: RayHit, rhs: RayHit)
  {
    lhs.geomID < rhs.geomID || (lhs.geomID == rhs.geomID && lhs.primID < rhs.primID)
  }

  lemma LessIrreflexive(a: RayHit)
    ensures !Less(a, a)
  {
  }

  lemma LessAsymmetric(a: RayHit, b: RayHit)
    requires Less(a, b)
    ensures !Less(b, a)
  {
  }

  lemma LessTransitive(a: RayHit, b: RayHit, c: RayHit)
    requires Less(a, b) && Less(b, c)
    ensures Less(a, c)
  {
  }

  /** Any two rays with different hit keys are ordered one way or the other. */
  lemma LessConnected(a: RayHit, b: RayHit)
    requires a != b
    ensures Less(a, b) || Less(b, a)
  {
  }

  /** What a sort by `operator<` leaves behind: no ray is smaller than the one before it. */
  predicate Sorted(s: seq<RayHit>)
  {
    forall i :: 0 < i < |s| ==> !Less(s[i], s[i - 1])
  }

  /** In a sorted batch no ray is smaller than any earlier ray. */
  lemma {:induction false} SortedPairwise(s: seq<RayHit>, i: nat, j: nat)
    requires Sorted(s) && i < j < |s|
    ensures !Less(s[j], s[i])
  {
    if i + 1 < j {
      SortedPairwise(s, i, j - 1);
    }
  }

  /** In a sorted batch the surface ids never decrease. */
  lemma SortedGeomNonDecreasing(s: seq<RayHit>, i: nat, j: nat)
    requires Sorted(s) && i <= j < |s|
    ensures s[i].geomID <= s[j].geomID
  {
    if i < j {
      SortedPairwise(s, i, j);
    }
  }

  /** In a sorted batch the rays of one surface are contiguous: a ray between two rays of
      surface g also hit surface g. */
  lemma SortedSurfacesContiguous(s: seq<RayHit>, i: nat, j: nat, k: nat)
    requires Sorted(s) && i <= j <= k < |s|
    requires s[i].geomID == s[k].geomID
    ensures s[j].geomID == s[i].geomID
  {
    SortedGeomNonDecreasing(s, i, j);
    SortedGeomNonDecreasing(s, j, k);
  }
}
