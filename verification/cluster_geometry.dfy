/** Cluster geometry of the double-sided silicon strip detector: strip masking,
    range overlap with an adjacency policy, and centroid proximity. */
module ClusterGeometry {

  /** The strip span of a cluster along one axis. Overlap arithmetic treats it as
      the half-open interval [min, max). The centroid is read by the proximity
      predicate, so the model carries it as an integer strip index. */
  datatype ClusterRange = ClusterRange(min: int, max: int, centroid: int)

  /** A cluster on both detector axes. */
  datatype XYPair = XYPair(x: ClusterRange, y: ClusterRange)

  function Abs(v: int): nat {
    if v < 0 then -v else v
  }

  /** Half-open strip membership. */
  predicate IsStripOverlaping(strip: int, r: ClusterRange) {
    r.min <= strip && strip < r.max
  }

  /** Closed-interval membership, the reference for the adjacency-tolerant overlap. */
  predicate InClosedRange(strip: int, r: ClusterRange) {
    r.min <= strip && strip <= r.max
  }

  /** Whether any strip of the noisy-strip list lies in the range. The scan stops
      at the first noisy strip found. */
  function IsNoisyStrip(noisyStrips: seq<int>, r: ClusterRange): (isNoisy: bool)
    ensures isNoisy <==> exists i :: 0 <= i < |noisyStrips| && IsStripOverlaping(noisyStrips[i], r)
  {
    if |noisyStrips| == 0 then false
    else if IsStripOverlaping(noisyStrips[0], r) then true
    else
      var rest := IsNoisyStrip(noisyStrips[1..], r);
      assert forall i :: 1 <= i < |noisyStrips| ==> noisyStrips[i] == noisyStrips[1..][i - 1];
      rest
  }

  /** Overlap of two ranges on one axis. With adjacency allowed, ranges that only
      touch (one's max equal to the other's min) also count. */
  predicate IsOverlapping1D(a: ClusterRange, b: ClusterRange, allowAdjacents: bool) {
    if allowAdjacents then a.max >= b.min && b.max >= a.min
    else a.max > b.min && b.max > a.min
  }

  /** Two clusters overlap when they overlap on both axes under the same policy. */
  predicate AreClustersOverlapping(a: XYPair, b: XYPair, allowAdjacents: bool) {
    IsOverlapping1D(a.x, b.x, allowAdjacents) && IsOverlapping1D(a.y, b.y, allowAdjacents)
  }

  predicate AreCentroidsCorrelated1D(a: ClusterRange, b: ClusterRange, positionThreshold: int) {
    Abs(a.centroid - b.centroid) <= positionThreshold
  }

  /** Two clusters are correlated when their centroids are within the threshold on both axes. */
  predicate AreCentroidsCorrelated(a: XYPair, b: XYPair, positionThreshold: int) {
    AreCentroidsCorrelated1D(a.x, b.x, positionThreshold) && AreCentroidsCorrelated1D(a.y, b.y, positionThreshold)
  }

  // ---------------------------------------------------------------------------
  // Strip masking
  // ---------------------------------------------------------------------------

  /** The upper bound of a range is excluded, and an empty range holds no strip. */
  lemma StripMaskIsHalfOpen(strip: int, r: ClusterRange)
    ensures IsStripOverlaping(r.max, r) == false
    ensures r.min == r.max ==> !IsStripOverlaping(strip, r)
    ensures IsStripOverlaping(strip, r) <==> r.min <= strip < r.max
  {
  }

  /** An empty noisy-strip list never masks a cluster. */
  lemma EmptyMaskNeverNoisy(r: ClusterRange)
    ensures !IsNoisyStrip([], r)
  {
  }

  /** Only which strips are listed matters: order and repetition do not. */
  lemma {:induction false} NoisyStripDependsOnlyOnListedStrips(a: seq<int>, b: seq<int>, r: ClusterRange)
    requires forall s :: s in a <==> s in b
    ensures IsNoisyStrip(a, r) == IsNoisyStrip(b, r)
  {
    if IsNoisyStrip(a, r) {
      var i :| 0 <= i < |a| && IsStripOverlaping(a[i], r);
      assert a[i] in b;
      var j :| 0 <= j < |b| && b[j] == a[i];
    }
    if IsNoisyStrip(b, r) {
      var j :| 0 <= j < |b| && IsStripOverlaping(b[j], r);
      assert b[j] in a;
      var i :| 0 <= i < |a| && a[i] == b[j];
    }
  }

  /** The decay-side broken-strip lists of the experiment configuration. */
  const BrokenXStripsDecay: seq<int> := [63, 64, 66, 130, 189, 191, 194, 225, 256, 319, 320, 192, 128, 255]
  const BrokenYStripsDecay: seq<int> := [127]

  /** With those lists, a cluster covering strip 63 is masked and so is a
      single-strip cluster on y strip 127. */
  lemma BrokenStripsMaskCoveringClusters()
    ensures IsNoisyStrip(BrokenXStripsDecay, ClusterRange(62, 64, 63))
    ensures IsNoisyStrip(BrokenYStripsDecay, ClusterRange(127, 128, 127))
  {
    assert IsStripOverlaping(BrokenXStripsDecay[0], ClusterRange(62, 64, 63));
    assert IsStripOverlaping(BrokenYStripsDecay[0], ClusterRange(127, 128, 127));
  }

  /** A cluster ending just below a broken strip is not masked: the range's max
      is excluded, so [60, 63) misses strip 63 and [126, 127) misses strip 127. */
  lemma BrokenStripsSkipClustersEndingAtThem()
    ensures !IsNoisyStrip(BrokenXStripsDecay, ClusterRange(60, 63, 61))
    ensures !IsNoisyStrip(BrokenYStripsDecay, ClusterRange(126, 127, 126))
  {
    var xs := BrokenXStripsDecay;
    assert forall i :: 0 <= i < |xs| ==> xs[i] >= 63;
  }

  // ---------------------------------------------------------------------------
  // One-axis overlap
  // ---------------------------------------------------------------------------

  lemma Overlap1DSymmetric(a: ClusterRange, b: ClusterRange, allowAdjacents: bool)
    ensures IsOverlapping1D(a, b, allowAdjacents) == IsOverlapping1D(b, a, allowAdjacents)
  {
  }

  /** Allowing adjacency only ever adds overlaps. */
  lemma StrictOverlapImpliesAdjacentOverlap(a: ClusterRange, b: ClusterRange)
    ensures IsOverlapping1D(a, b, false) ==> IsOverlapping1D(a, b, true)
  {
  }

  /** Touching ranges: overlapping only when adjacency is allowed. */
  lemma AdjacencyToggle1D(a: ClusterRange, b: ClusterRange)
    requires a.max == b.min && b.max >= a.min
    ensures !IsOverlapping1D(a, b, false)
    ensures IsOverlapping1D(a, b, true)
  {
  }

  /** For non-empty ranges, strict overlap means the two half-open ranges share a strip. */
  lemma StrictOverlapIffSharedStrip(a: ClusterRange, b: ClusterRange)
    requires a.min < a.max && b.min < b.max
    ensures IsOverlapping1D(a, b, false) <==> exists s :: IsStripOverlaping(s, a) && IsStripOverlaping(s, b)
  {
    if IsOverlapping1D(a, b, false) {
      var s := if a.min < b.min then b.min else a.min;
      assert IsStripOverlaping(s, a) && IsStripOverlaping(s, b);
    }
  }

  /** For well-formed ranges, adjacency-tolerant overlap means the closed ranges share a strip. */
  lemma AdjacentOverlapIffSharedClosedStrip(a: ClusterRange, b: ClusterRange)
    requires a.min <= a.max && b.min <= b.max
    ensures IsOverlapping1D(a, b, true) <==> exists s :: InClosedRange(s, a) && InClosedRange(s, b)
  {
    if IsOverlapping1D(a, b, true) {
      var s := if a.min < b.min then b.min else a.min;
      assert InClosedRange(s, a) && InClosedRange(s, b);
    }
  }

  /** A degenerate range (min == max) masks no strip, yet strictly overlaps a
      range around it: strict overlap is a comparison of bounds, not of strips. */
  lemma DegenerateRangeOverlap()
    ensures !IsStripOverlaping(5, ClusterRange(5, 5, 5))
    ensures IsOverlapping1D(ClusterRange(5, 5, 5), ClusterRange(3, 8, 5), false)
    ensures !(exists s :: IsStripOverlaping(s, ClusterRange(5, 5, 5)))
  {
  }

  // ---------------------------------------------------------------------------
  // Two-axis overlap
  // ---------------------------------------------------------------------------

  lemma ClusterOverlapSymmetric(a: XYPair, b: XYPair, allowAdjacents: bool)
    ensures AreClustersOverlapping(a, b, allowAdjacents) == AreClustersOverlapping(b, a, allowAdjacents)
  {
  }

  /** Clusters touching along x and strictly overlapping along y overlap only
      when adjacency is allowed. */
  lemma ClusterAdjacencyToggle(a: XYPair, b: XYPair)
    requires a.x.max == b.x.min && b.x.max >= a.x.min
    requires IsOverlapping1D(a.y, b.y, false)
    ensures !AreClustersOverlapping(a, b, false)
    ensures AreClustersOverlapping(a, b, true)
  {
  }

  /** For non-empty clusters, strict overlap means the clusters share a pixel. */
  lemma StrictClusterOverlapIffSharedPixel(a: XYPair, b: XYPair)
    requires a.x.min < a.x.max && a.y.min < a.y.max
    requires b.x.min < b.x.max && b.y.min < b.y.max
    ensures AreClustersOverlapping(a, b, false) <==>
      exists sx, sy :: IsStripOverlaping(sx, a.x) && IsStripOverlaping(sx, b.x) &&
                       IsStripOverlaping(sy, a.y) && IsStripOverlaping(sy, b.y)
  {
    StrictOverlapIffSharedStrip(a.x, b.x);
    StrictOverlapIffSharedStrip(a.y, b.y);
    if AreClustersOverlapping(a, b, false) {
      var sx :| IsStripOverlaping(sx, a.x) && IsStripOverlaping(sx, b.x);
      var sy :| IsStripOverlaping(sy, a.y) && IsStripOverlaping(sy, b.y);
      assert IsStripOverlaping(sx, a.x) && IsStripOverlaping(sx, b.x) &&
             IsStripOverlaping(sy, a.y) && IsStripOverlaping(sy, b.y);
    }
  }

  // ---------------------------------------------------------------------------
  // Centroid proximity
  // ---------------------------------------------------------------------------

  /** Correlation holds exactly when both centroid distances are within the threshold. */
  lemma CentroidsCorrelatedMeaning(a: XYPair, b: XYPair, t: int)
    ensures AreCentroidsCorrelated(a, b, t) <==>
      (-t <= a.x.centroid - b.x.centroid <= t && -t <= a.y.centroid - b.y.centroid <= t)
  {
  }

  lemma CentroidsCorrelatedSymmetric(a: XYPair, b: XYPair, t: int)
    ensures AreCentroidsCorrelated(a, b, t) == AreCentroidsCorrelated(b, a, t)
  {
  }

  /** A wider threshold keeps every correlated pair correlated. */
  lemma CentroidsCorrelatedMonotone(a: XYPair, b: XYPair, t1: int, t2: int)
    requires t1 <= t2
    ensures AreCentroidsCorrelated(a, b, t1) ==> AreCentroidsCorrelated(a, b, t2)
  {
  }

  /** A cluster is correlated with itself exactly when the threshold is not negative. */
  lemma CentroidsSelfCorrelated(a: XYPair, t: int)
    ensures AreCentroidsCorrelated(a, a, t) <==> t >= 0
  {
  }
}
