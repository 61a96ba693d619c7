/** A robot that follows a list of segments, one location to the next. */
module Robot {
  import opened Wrappers
  import opened Errors
  import opened Geometry
  import opened Types

  /** How close counts as "at" a target. */
  const DistThreshold: real := 0.1

  /** One leg of a robot's pathing: from one location to the next, heading for
      the coordinates (x, y) of `to`. */
  datatype Segment = Segment(from: Label, to: Label, x: real, y: real) {
    function Target(): Point {
      Point(x, y)
    }
  }

  /** The error every query raises while `path` is still undefined. */
  const NoPathing := UndefinedProperty("length")

  class SimRobot {
    const name: string
    var currentX: real
    var currentY: real
    /** The segments to follow; None while `path` is still undefined, which it
        is from construction until the first non-empty `AddPathing`. */
    var path: Option<seq<Segment>>
    /** The segment being followed; equal to the number of segments once pathing
        is complete. */
    var pathIdx: nat

    function Position(): Point
      reads this
    {
      Point(currentX, currentY)
    }

    /** A robot standing on `startingPoint`. Its path stays undefined. */
    constructor (name: string, startingPoint: Location)
      ensures this.name == name
      ensures Position() == startingPoint.Coords()
      ensures path == None
    {
      this.name := name;
      currentX := startingPoint.x;
      currentY := startingPoint.y;
      path := None;
      // pathIdx is undefined as well; nothing reads it before `AddPathing` sets it
      pathIdx := 0;
    }

    /** `atDestination`: true once pathing is complete, otherwise whether the
        robot is within DistThreshold of its current segment's target. */
    function AtDestination(dist: Metric): Result<bool, SimError>
      reads this
    {
      match path
      case None => Err(NoPathing)
      case Some(segments) =>
        if pathIdx >= |segments| then Ok(true)
        else Ok(dist(Position(), segments[pathIdx].Target()) <= DistThreshold)
    }

    /** `completedPathing`. */
    function CompletedPathing(): Result<bool, SimError>
      reads this
    {
      match path
      case None => Err(NoPathing)
      case Some(segments) => Ok(pathIdx >= |segments|)
    }

    /** `currentPath`: the segment being followed, None (`null`) once complete. */
    function CurrentPath(): Result<Option<Segment>, SimError>
      reads this
    {
      match path
      case None => Err(NoPathing)
      case Some(segments) => if pathIdx >= |segments| then Ok(None) else Ok(Some(segments[pathIdx]))
    }

    /** `addPathing`: an empty list is ignored; any other list replaces the
        segments and restarts at the first one. */
    method AddPathing(segments: seq<Segment>)
      modifies this
      ensures segments == [] ==> path == old(path) && pathIdx == old(pathIdx)
      ensures segments != [] ==> path == Some(segments) && pathIdx == 0
      ensures Position() == old(Position())
    {
      if |segments| == 0 {
        return;
      }
      path := Some(segments);
      pathIdx := 0;
    }

    /** `step`: on arrival at the current target, move on to the next segment;
        then, if a segment remains, move toward its target. The motion itself
        (atan2, cos, sin, sqrt) is not modelled: the new position is arbitrary. */
    method Step(stepSize: real, dist: Metric) returns (r: Outcome<SimError>)
      modifies this
      ensures path == old(path)
      ensures old(path).None? ==> r == Fail(NoPathing) && pathIdx == old(pathIdx) && Position() == old(Position())
      ensures old(path).Some? ==> r == Pass
      ensures old(path).Some? ==>
        pathIdx == if old(AtDestination(dist)) == Ok(true) then old(pathIdx) + 1 else old(pathIdx)
      ensures CurrentPath() == Ok(None) ==> Position() == old(Position())
    {
      var arrived := AtDestination(dist);
      if arrived.Err? {
        return Fail(arrived.error);
      }
      if arrived.value {
        pathIdx := pathIdx + 1;
      }
      var current := CurrentPath();
      if current.value.None? {
        return Pass;
      }
      currentX, currentY := *, *;
      return Pass;
    }
  }

  /** `currentPath` is null exactly when `completedPathing` holds, both fail
      together while the path is undefined, and otherwise `currentPath` is the
      segment at `pathIdx`. */
  lemma CurrentPathMatchesCompleted(r: SimRobot)
    ensures r.CurrentPath().Err? <==> r.path.None?
    ensures r.CompletedPathing().Err? <==> r.path.None?
    ensures r.CurrentPath() == Ok(None) <==> r.CompletedPathing() == Ok(true)
    ensures r.CurrentPath().Ok? && r.CurrentPath().value.Some? ==>
      r.pathIdx < |r.path.value| && r.CurrentPath().value.value == r.path.value[r.pathIdx]
  {
  }

  /** A robot that has completed its pathing is at its destination. */
  lemma CompletedIsAtDestination(r: SimRobot, dist: Metric)
    ensures r.CompletedPathing() == Ok(true) ==> r.AtDestination(dist) == Ok(true)
    ensures r.AtDestination(dist).Err? <==> r.path.None?
  {
  }
}
