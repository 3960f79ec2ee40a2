/** The mouse-move rules every drag-to-draw hook repeats (src/hooks/useArrowDrawing.tsx,
    src/hooks/useArrowDrawing.ts, src/hooks/useArrows.ts, src/hooks/useLines.ts), each with
    its own spacing threshold: when a waypoint is added, and which marker counts as hovered. */
module Dragging {
  import opened Wrappers
  import opened Types
  import opened Geometry

  /** The point the next waypoint is measured from: the last waypoint, else the start. */
  function LastPoint(fromPoint: Point, midPoints: seq<Point>): Point
  {
    if midPoints == [] then fromPoint else midPoints[|midPoints| - 1]
  }

  /** Each waypoint lies more than `spacing` from the point before it (the start, for the
      first). */
  predicate Spaced(fromPoint: Point, midPoints: seq<Point>, spacing: real)
  {
    forall i :: 0 <= i < |midPoints| ==>
      Distance(midPoints[i], if i == 0 then fromPoint else midPoints[i - 1]) > spacing
  }

  /** The waypoints after the cursor moves to `point`: one more, at the end, exactly when
      drawing freehand and the point is more than `spacing` from the last one. */
  function NextMidPoints(midPoints: seq<Point>, fromPoint: Point, point: Point, straight: bool, spacing: real)
    : (r: seq<Point>)
    ensures |r| == |midPoints| || |r| == |midPoints| + 1
    ensures |r| == |midPoints| + 1 <==> !straight && Distance(point, LastPoint(fromPoint, midPoints)) > spacing
    ensures r[..|midPoints|] == midPoints
    ensures |r| == |midPoints| + 1 ==> r[|midPoints|] == point
    ensures Spaced(fromPoint, midPoints, spacing) ==> Spaced(fromPoint, r, spacing)
  {
    if !straight && Distance(point, LastPoint(fromPoint, midPoints)) > spacing then
      var r := midPoints + [point];
      assert forall i :: 0 <= i < |midPoints| ==> r[i] == midPoints[i];
      r
    else midPoints
  }

  /** The drag's target marker while hovering: the marker under the cursor unless it is
      the marker the drag started from. */
  function HoveredMarker(hovered: Option<Marker>, originId: Id): (r: Option<Marker>)
    ensures r.Some? <==> hovered.Some? && hovered.value.id != originId
    ensures r.Some? ==> r == hovered
  {
    match hovered
    case Some(marker) => if marker.id == originId then None else hovered
    case None => None
  }

  /** One cursor move: the event point, the marker under it if any, and the straight
      setting at that moment. */
  datatype Move = Move(point: Point, hovered: Option<Marker>, straight: bool)

  /** The waypoints after a run of moves. */
  function MidPointsAfter(midPoints: seq<Point>, fromPoint: Point, moves: seq<Move>, spacing: real)
    : (r: seq<Point>)
    decreases |moves|
  {
    if moves == [] then midPoints
    else MidPointsAfter(NextMidPoints(midPoints, fromPoint, moves[0].point, moves[0].straight, spacing),
                        fromPoint, moves[1..], spacing)
  }

  /** However the cursor moves, the waypoints only grow at the end and stay spaced, and in
      straight mode throughout none are added. */
  lemma {:induction false} MidPointsAfterMoves(midPoints: seq<Point>, fromPoint: Point, moves: seq<Move>, spacing: real)
    requires Spaced(fromPoint, midPoints, spacing)
    ensures var r := MidPointsAfter(midPoints, fromPoint, moves, spacing);
      && |midPoints| <= |r| <= |midPoints| + |moves|
      && r[..|midPoints|] == midPoints
      && Spaced(fromPoint, r, spacing)
      && ((forall i :: 0 <= i < |moves| ==> moves[i].straight) ==> r == midPoints)
    decreases |moves|
  {
    if moves != [] {
      var next := NextMidPoints(midPoints, fromPoint, moves[0].point, moves[0].straight, spacing);
      MidPointsAfterMoves(next, fromPoint, moves[1..], spacing);
      var r := MidPointsAfter(next, fromPoint, moves[1..], spacing);
      assert r[..|midPoints|] == r[..|next|][..|midPoints|];
    }
  }
}
