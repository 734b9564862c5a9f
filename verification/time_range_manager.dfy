/** The deadtime exclusion-window index: an append-only list of time windows,
    each centred on a detector position, sharing one position tolerance. */
module TimeRangeManager {

  function AbsReal(v: real): real {
    if v < 0.0 then -v else v
  }

  /** One exclusion window: a closed time interval around a cluster centroid. */
  datatype TimeRange = TimeRange(startTime: nat, endTime: nat, clusterCentroidX: real, clusterCentroidY: real) {

    /** The point lies in the closed time interval and within `positionRange`
        of the centroid on each axis. */
    predicate Contains(time: nat, x: real, y: real, positionRange: real) {
      startTime <= time && time <= endTime &&
      AbsReal(x - clusterCentroidX) <= positionRange &&
      AbsReal(y - clusterCentroidY) <= positionRange
    }

    /** Windows are ordered by start time alone. */
    predicate Less(other: TimeRange) {
      startTime < other.startTime
    }

    predicate Ordered() {
      startTime <= endTime
    }
  }

  /** The window list together with the shared position tolerance. */
  datatype Manager = Manager(positionRange: real, timeRanges: seq<TimeRange>) {

    /** The reference meaning of a query: some stored window contains the point. */
    predicate Covers(time: nat, x: real, y: real) {
      exists i :: 0 <= i < |timeRanges| && timeRanges[i].Contains(time, x, y, positionRange)
    }

    /** Every stored window has its start no later than its end. */
    predicate Valid() {
      forall i :: 0 <= i < |timeRanges| ==> timeRanges[i].Ordered()
    }

    function GetRanges(): seq<TimeRange> {
      timeRanges
    }

    /** Linear scan over the windows, returning at the first one that contains the point. */
    method Contains(time: nat, x: real, y: real) returns (found: bool)
      ensures found <==> Covers(time, x, y)
    {
      for i := 0 to |timeRanges|
        invariant forall j :: 0 <= j < i ==> !timeRanges[j].Contains(time, x, y, positionRange)
      {
        if timeRanges[i].Contains(time, x, y, positionRange) {
          return true;
        }
      }
      return false;
    }
  }

  /** A manager with no windows and the given tolerance. */
  function NewManager(positionRange: real): (m: Manager)
    ensures m.positionRange == positionRange && |m.GetRanges()| == 0
    ensures m.Valid()
  {
    Manager(positionRange, [])
  }

  function Min(a: nat, b: nat): nat { if a <= b then a else b }
  function Max(a: nat, b: nat): nat { if a <= b then b else a }

  /** Appends one window; reversed bounds are swapped, not rejected. */
  function AddRange(m: Manager, startTime: nat, endTime: nat, clusterCentroidX: real, clusterCentroidY: real): (m': Manager)
    ensures m'.positionRange == m.positionRange
    ensures |m'.timeRanges| == |m.timeRanges| + 1
    ensures m'.timeRanges[..|m.timeRanges|] == m.timeRanges
    ensures m'.timeRanges[|m.timeRanges|] ==
      TimeRange(Min(startTime, endTime), Max(startTime, endTime), clusterCentroidX, clusterCentroidY)
    ensures m.Valid() ==> m'.Valid()
  {
    if startTime > endTime then
      Manager(m.positionRange, m.timeRanges + [TimeRange(endTime, startTime, clusterCentroidX, clusterCentroidY)])
    else
      Manager(m.positionRange, m.timeRanges + [TimeRange(startTime, endTime, clusterCentroidX, clusterCentroidY)])
  }

  /** One window request, as handed to `AddRange`. */
  datatype RangeRequest = RangeRequest(startTime: nat, endTime: nat, centroidX: real, centroidY: real)

  /** A manager built by a constructor call followed by one `AddRange` per request. */
  function BuildManager(positionRange: real, requests: seq<RangeRequest>): Manager
    decreases |requests|
  {
    if |requests| == 0 then NewManager(positionRange)
    else
      var last := requests[|requests| - 1];
      AddRange(BuildManager(positionRange, requests[..|requests| - 1]), last.startTime, last.endTime, last.centroidX, last.centroidY)
  }

  // ---------------------------------------------------------------------------
  // Properties
  // ---------------------------------------------------------------------------

  /** Window containment is inclusive at both time bounds. */
  lemma WindowBoundsInclusive(r: TimeRange, positionRange: real)
    requires positionRange >= 0.0
    ensures r.Ordered() ==> r.Contains(r.startTime, r.clusterCentroidX, r.clusterCentroidY, positionRange)
    ensures r.Ordered() ==> r.Contains(r.endTime, r.clusterCentroidX, r.clusterCentroidY, positionRange)
    ensures !r.Contains(r.endTime + 1, r.clusterCentroidX, r.clusterCentroidY, positionRange)
  {
  }

  /** `Less` compares start times only: it is a strict order, and windows with
      equal starts are incomparable whatever their ends and centres. */
  lemma LessIsStrictOrderOnStart(a: TimeRange, b: TimeRange, c: TimeRange)
    ensures !a.Less(a)
    ensures a.Less(b) ==> !b.Less(a)
    ensures a.Less(b) && b.Less(c) ==> a.Less(c)
    ensures a.startTime == b.startTime ==> !a.Less(b) && !b.Less(a)
  {
  }

  /** An empty manager covers no point. */
  lemma EmptyManagerCoversNothing(positionRange: real, time: nat, x: real, y: real)
    ensures !NewManager(positionRange).Covers(time, x, y)
  {
  }

  /** After `AddRange`, a point is covered iff it was covered before or the new
      (normalised) window contains it. */
  lemma AddRangeCovers(m: Manager, startTime: nat, endTime: nat, cx: real, cy: real, time: nat, x: real, y: real)
    ensures AddRange(m, startTime, endTime, cx, cy).Covers(time, x, y) <==>
      (m.Covers(time, x, y) ||
       TimeRange(Min(startTime, endTime), Max(startTime, endTime), cx, cy).Contains(time, x, y, m.positionRange))
  {
    var m' := AddRange(m, startTime, endTime, cx, cy);
    var n := |m.timeRanges|;
    assert forall i :: 0 <= i < n ==> m'.timeRanges[i] == m.timeRanges[i] by {
      forall i | 0 <= i < n ensures m'.timeRanges[i] == m.timeRanges[i] {
        assert m'.timeRanges[..n][i] == m'.timeRanges[i];
      }
    }
    if m'.Covers(time, x, y) {
      var i :| 0 <= i < |m'.timeRanges| && m'.timeRanges[i].Contains(time, x, y, m'.positionRange);
      if i < n {
        assert m.timeRanges[i].Contains(time, x, y, m.positionRange);
      }
    }
    if m.Covers(time, x, y) {
      var i :| 0 <= i < n && m.timeRanges[i].Contains(time, x, y, m.positionRange);
      assert m'.timeRanges[i].Contains(time, x, y, m'.positionRange);
    }
    if TimeRange(Min(startTime, endTime), Max(startTime, endTime), cx, cy).Contains(time, x, y, m.positionRange) {
      assert m'.timeRanges[n].Contains(time, x, y, m'.positionRange);
    }
  }

  /** Coverage only grows: a point vetoed before an `AddRange` is still vetoed after it. */
  lemma CoverageMonotone(m: Manager, startTime: nat, endTime: nat, cx: real, cy: real, time: nat, x: real, y: real)
    ensures m.Covers(time, x, y) ==> AddRange(m, startTime, endTime, cx, cy).Covers(time, x, y)
  {
    AddRangeCovers(m, startTime, endTime, cx, cy, time, x, y);
  }

  /** Swapping a window's bounds yields the same manager. */
  lemma AddRangeIgnoresBoundOrder(m: Manager, startTime: nat, endTime: nat, cx: real, cy: real)
    ensures AddRange(m, startTime, endTime, cx, cy) == AddRange(m, endTime, startTime, cx, cy)
  {
  }

  /** A built manager holds one ordered window per request, in request order,
      each the request with its bounds sorted, under the constructor's tolerance. */
  lemma {:induction false} BuildManagerRanges(positionRange: real, requests: seq<RangeRequest>)
    ensures BuildManager(positionRange, requests).positionRange == positionRange
    ensures BuildManager(positionRange, requests).Valid()
    ensures |BuildManager(positionRange, requests).GetRanges()| == |requests|
    ensures forall i :: 0 <= i < |requests| ==>
      BuildManager(positionRange, requests).GetRanges()[i] ==
        TimeRange(Min(requests[i].startTime, requests[i].endTime), Max(requests[i].startTime, requests[i].endTime),
                  requests[i].centroidX, requests[i].centroidY)
    decreases |requests|
  {
    if |requests| > 0 {
      var init := requests[..|requests| - 1];
      BuildManagerRanges(positionRange, init);
      var prev := BuildManager(positionRange, init);
      var m := BuildManager(positionRange, requests);
      forall i | 0 <= i < |requests| - 1
        ensures m.GetRanges()[i] ==
          TimeRange(Min(requests[i].startTime, requests[i].endTime), Max(requests[i].startTime, requests[i].endTime),
                    requests[i].centroidX, requests[i].centroidY)
      {
        assert m.timeRanges[..|prev.timeRanges|][i] == m.timeRanges[i];
        assert init[i] == requests[i];
      }
    }
  }

  /** Deadtime scenario: a window [1050, 1150] at (10, 10) with tolerance 5 vetoes
      a decay at t = 1120 at the same position, and nothing outside the window. */
  lemma DeadtimeVetoExample()
    ensures AddRange(NewManager(5.0), 1050, 1150, 10.0, 10.0).Covers(1120, 10.0, 10.0)
    ensures AddRange(NewManager(5.0), 1150, 1050, 10.0, 10.0).Covers(1120, 12.5, 7.5)
    ensures !AddRange(NewManager(5.0), 1050, 1150, 10.0, 10.0).Covers(1151, 10.0, 10.0)
    ensures !AddRange(NewManager(5.0), 1050, 1150, 10.0, 10.0).Covers(1120, 16.0, 10.0)
  {
    var m := AddRange(NewManager(5.0), 1050, 1150, 10.0, 10.0);
    assert m.timeRanges[0].Contains(1120, 10.0, 10.0, 5.0);
    var m2 := AddRange(NewManager(5.0), 1150, 1050, 10.0, 10.0);
    assert m2.timeRanges[0].Contains(1120, 12.5, 7.5, 5.0);
  }
}
