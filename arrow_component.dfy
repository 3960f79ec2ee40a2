/** The pure helpers of the older arrow component (src/Arrow.tsx): the polyline a line is
    drawn along, with a straight-mode switch, and the point its arrowhead's angle is
    taken from. */
module ArrowComponent {
  import opened Wrappers
  import opened Types
  import opened Geometry

  /** The points a line is drawn through: both ends only in straight mode, otherwise the
      ends with every waypoint between them. */
  function LinePoints(fromPoint: Point, midPoints: seq<Point>, toPoint: Point, straight: bool): (r: seq<Point>)
    ensures 2 <= |r| && r[0] == fromPoint && r[|r| - 1] == toPoint
    ensures straight ==> |r| == 2
    ensures !straight ==> r[1..|r| - 1] == midPoints
  {
    if straight then [fromPoint, toPoint] else AllPoints(fromPoint, midPoints, toPoint)
  }

  /** `pointArrayForLine`: the line's points, cut off where they enter the target marker.
      Unlike `pointArrayForArrow` there is no check that some point lies in the marker:
      with a target marker the line fails whenever no segment meets the marker. */
  function PointArrayForLine(fromPoint: Point, midPoints: seq<Point>, toPoint: Point,
                             toMarker: Option<Marker>, straight: bool): (r: Result<seq<Point>, GeometryError>)
    ensures var points := LinePoints(fromPoint, midPoints, toPoint, straight);
      && (toMarker.None? ==> r == Success(points))
      && (r.Failure? <==>
            toMarker.Some? && forall i :: 0 <= i < |points| ==> !SegmentMeetsRect(points, toMarker.value.rect, i))
      && (r.Failure? ==> r.error == NoIntersection)
      && (r.Success? ==> 2 <= |r.value| <= |points| && r.value[0] == fromPoint)
    ensures toMarker.Some? && r.Success? ==>
      EndsOnBorder(LinePoints(fromPoint, midPoints, toPoint, straight), toMarker.value.rect, r.value)
  {
    var points := LinePoints(fromPoint, midPoints, toPoint, straight);
    match toMarker
    case None => Success(points)
    case Some(marker) =>
      var r := TruncateAtRect(points, marker.rect);
      if r.Success? then
        TruncateAtRectEndsOnBorder(points, marker.rect, r.value);
        r
      else
        r
  }

  /** In straight mode the waypoints play no part. */
  lemma StraightLineIgnoresMidPoints(fromPoint: Point, midPoints: seq<Point>, otherMidPoints: seq<Point>,
                                     toPoint: Point, toMarker: Option<Marker>)
    ensures PointArrayForLine(fromPoint, midPoints, toPoint, toMarker, true)
            == PointArrayForLine(fromPoint, otherMidPoints, toPoint, toMarker, true)
  {
    assert LinePoints(fromPoint, midPoints, toPoint, true) == LinePoints(fromPoint, otherMidPoints, toPoint, true);
  }

  /** Where the two versions part: a freehand line whose target marker it never reaches
      fails here, while `pointArrayForArrow` returns the same points whole. */
  lemma MissedMarkerFailsOnlyHere(fromPoint: Point, midPoints: seq<Point>, toPoint: Point, marker: Marker)
    requires var points := AllPoints(fromPoint, midPoints, toPoint);
      && (forall i :: 0 <= i < |points| ==> !IsPointInRect(points[i], marker.rect))
      && (forall i :: 0 <= i < |points| ==> !SegmentMeetsRect(points, marker.rect, i))
    ensures PointArrayForLine(fromPoint, midPoints, toPoint, Some(marker), false) == Failure(NoIntersection)
    ensures PointArrayForArrow(fromPoint, midPoints, toPoint, Some(marker))
            == Success(AllPoints(fromPoint, midPoints, toPoint))
  {
    assert LinePoints(fromPoint, midPoints, toPoint, false) == AllPoints(fromPoint, midPoints, toPoint);
  }

  /** `arrowAngleForPoints` of Arrow.tsx, with a 4-unit jitter threshold: an arrowhead
      exactly when the first and last points are at least 40 apart, pointing from the last
      point more than 4 away from the end. */
  function ArrowAngleForPoints(points: seq<Point>): (r: Option<Heading>)
    requires |points| > 0
    ensures r.None? <==> Distance(points[0], points[|points| - 1]) < 40.0
    ensures r.Some? ==> r.value.to == points[|points| - 1]
    ensures r.Some? ==>
      exists i :: (0 <= i < |points| - 1 && r.value.from == points[i]
        && Distance(points[i], points[|points| - 1]) > 4.0
        && (forall j :: i < j < |points| ==> Distance(points[j], points[|points| - 1]) <= 4.0))
  {
    ArrowHeading(points, 4.0)
  }
}
