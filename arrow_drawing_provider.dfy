/** The drag-to-draw state machine of src/hooks/useArrowDrawing.tsx. A drag starts on a
    marker or on an existing arrow, collects waypoints as the cursor moves, and on release
    over another marker dispatches `addArrow` with an arrow that depends on both of its end
    markers and on everything the arrow it started from depended on. */
module ArrowDrawingProvider {
  import opened Wrappers
  import opened Types
  import opened Geometry
  import opened Dragging
  import Reducer

  /** Waypoints closer than this to the previous one are not recorded. */
  const MidPointSpacing: real := 10.0

  /** What a drag can start on. */
  datatype Target = MarkerTarget(marker: Marker) | ArrowTarget(arrow: Arrow)

  datatype DragStart = DragStart(fromPoint: Point, fromMarker: Id, dependencies: set<Id>)

  /** `dragStartProperties` (its straight-arrow argument is unused in the source). From a
      marker: the event point, that marker, and a dependency on it alone. From an arrow:
      the point of the arrow nearest the event, the arrow's own origin marker, and the
      arrow's dependencies together with the arrow and that marker. */
  function DragStartProperties(target: Target, showStraightArrows: bool, currentPoint: Point): (r: DragStart)
    ensures r.fromMarker in r.dependencies
    ensures target.MarkerTarget? ==>
      r.fromPoint == currentPoint && r.fromMarker == target.marker.id && r.dependencies == {target.marker.id}
    ensures target.ArrowTarget? ==>
      var a := target.arrow;
      var polyline := AllPoints(a.fromPoint, a.midPoints, a.toPoint);
      var i := NearestSegment(currentPoint, polyline);
      && r.fromMarker == a.fromMarker
      && a.dependencies <= r.dependencies && a.id in r.dependencies
      && r.dependencies - a.dependencies <= {a.id, a.fromMarker}
      && r.fromPoint == PointOnLineNearPoint(polyline[i], polyline[i + 1], currentPoint)
  {
    match target
    case ArrowTarget(a) =>
      var nearest := PointOnPolylineNearPoint(currentPoint, AllPoints(a.fromPoint, a.midPoints, a.toPoint));
      DragStart(nearest.value, a.fromMarker, a.dependencies + {a.id, a.fromMarker})
    case MarkerTarget(marker) =>
      DragStart(currentPoint, marker.id, {marker.id})
  }

  /** A drag started on an arrow starts on that arrow's path. */
  lemma DragFromArrowStartsOnIt(arrow: Arrow, showStraightArrows: bool, currentPoint: Point)
    ensures var r := DragStartProperties(ArrowTarget(arrow), showStraightArrows, currentPoint);
      var polyline := AllPoints(arrow.fromPoint, arrow.midPoints, arrow.toPoint);
      exists i :: 0 <= i < |polyline| - 1 && OnSegment(r.fromPoint, polyline[i], polyline[i + 1])
  {
    PointOnPolylineNearPointOnPolyline(currentPoint, AllPoints(arrow.fromPoint, arrow.midPoints, arrow.toPoint));
  }

  /** The arrow that mouse-down starts: no waypoints, no target, ending at the event point. */
  function StartArrow(target: Target, showStraightArrows: bool, currentPoint: Point): (r: UnfinishedArrow)
    ensures r.fromMarker in r.dependencies
    ensures r.midPoints == [] && r.toMarker.None? && r.toPoint == currentPoint
    ensures var s := DragStartProperties(target, showStraightArrows, currentPoint);
      r.fromPoint == s.fromPoint && r.fromMarker == s.fromMarker && r.dependencies == s.dependencies
  {
    var s := DragStartProperties(target, showStraightArrows, currentPoint);
    UnfinishedArrow(s.fromMarker, s.fromPoint, [], None, currentPoint, s.dependencies)
  }

  /** The arrow after the cursor moves to `currentPoint` over `hovered`: it ends at the
      point, targets the hovered marker unless that is its origin, may gain the point as a
      waypoint, and keeps its start and dependencies. */
  function MovedArrow(arrow: UnfinishedArrow, currentPoint: Point, hovered: Option<Marker>, showStraightArrows: bool)
    : (r: UnfinishedArrow)
    ensures r.fromMarker == arrow.fromMarker && r.fromPoint == arrow.fromPoint
    ensures r.dependencies == arrow.dependencies
    ensures r.toPoint == currentPoint
    ensures r.midPoints == NextMidPoints(arrow.midPoints, arrow.fromPoint, currentPoint, showStraightArrows, MidPointSpacing)
    ensures r.toMarker.Some? <==> hovered.Some? && hovered.value.id != arrow.fromMarker
    ensures r.toMarker.Some? ==> r.toMarker.value == hovered.value.id
  {
    var newMidPoints := NextMidPoints(arrow.midPoints, arrow.fromPoint, currentPoint, showStraightArrows, MidPointSpacing);
    var toMarker := match HoveredMarker(hovered, arrow.fromMarker)
                    case Some(marker) => Some(marker.id)
                    case None => None;
    arrow.(midPoints := newMidPoints, toPoint := currentPoint, toMarker := toMarker)
  }

  /** What mouse-up makes of the arrow being drawn: nothing off any marker or on its own
      origin; otherwise an arrow to the marker under the cursor, ending at the event
      point, depending on everything the drag did and on that marker. */
  function Release(arrow: UnfinishedArrow, currentPoint: Point, marker: Option<Marker>, id: Id): (r: Option<Arrow>)
    ensures r.None? <==> marker.None? || marker.value.id == arrow.fromMarker
    ensures r.Some? ==>
      && r.value.id == id && r.value.toMarker == marker.value.id && r.value.toPoint == currentPoint
      && r.value.fromMarker == arrow.fromMarker && r.value.fromPoint == arrow.fromPoint
      && r.value.midPoints == arrow.midPoints
      && r.value.dependencies == arrow.dependencies + {marker.value.id}
    ensures r.Some? && arrow.fromMarker in arrow.dependencies ==>
      r.value.fromMarker in r.value.dependencies && r.value.toMarker in r.value.dependencies
      && r.value.fromMarker != r.value.toMarker
  {
    match marker
    case None => None
    case Some(m) =>
      if m.id == arrow.fromMarker then None
      else Some(Arrow(id, arrow.fromMarker, arrow.fromPoint, arrow.midPoints, m.id, currentPoint,
                      arrow.dependencies + {m.id}))
  }

  /** The arrow after a run of moves. */
  function ArrowAfter(arrow: UnfinishedArrow, moves: seq<Move>): UnfinishedArrow
    decreases |moves|
  {
    if moves == [] then arrow
    else ArrowAfter(MovedArrow(arrow, moves[0].point, moves[0].hovered, moves[0].straight), moves[1..])
  }

  /** Moves keep a drag's origin and dependencies; its waypoints are those the moves
      leave behind. */
  lemma {:induction false} ArrowAfterMoves(arrow: UnfinishedArrow, moves: seq<Move>)
    ensures var r := ArrowAfter(arrow, moves);
      && r.fromMarker == arrow.fromMarker && r.fromPoint == arrow.fromPoint
      && r.dependencies == arrow.dependencies
      && r.midPoints == MidPointsAfter(arrow.midPoints, arrow.fromPoint, moves, MidPointSpacing)
    decreases |moves|
  {
    if moves != [] {
      var next := MovedArrow(arrow, moves[0].point, moves[0].hovered, moves[0].straight);
      ArrowAfterMoves(next, moves[1..]);
    }
  }

  /** Whatever the drag, a committed arrow depends on both of its end markers, which are
      distinct, and its waypoints are more than the spacing apart. */
  lemma CommittedArrowDependsOnBothEnds(target: Target, showStraightArrows: bool, start: Point,
                                        moves: seq<Move>, end: Point, marker: Option<Marker>, id: Id)
    ensures var drawn := ArrowAfter(StartArrow(target, showStraightArrows, start), moves);
      var r := Release(drawn, end, marker, id);
      r.Some? ==>
        && r.value.fromMarker in r.value.dependencies && r.value.toMarker in r.value.dependencies
        && r.value.fromMarker != r.value.toMarker
        && Spaced(r.value.fromPoint, r.value.midPoints, MidPointSpacing)
  {
    var started := StartArrow(target, showStraightArrows, start);
    ArrowAfterMoves(started, moves);
    MidPointsAfterMoves(started.midPoints, started.fromPoint, moves, MidPointSpacing);
  }

  /** An arrow drawn from another arrow goes whenever anything the other one depends on,
      or the other one itself, is removed. */
  lemma DescendantGoesWithAncestor(ancestor: Arrow, showStraightArrows: bool, start: Point,
                                   moves: seq<Move>, end: Point, marker: Option<Marker>, id: Id, removed: Id)
    requires removed == ancestor.id || removed in ancestor.dependencies
    ensures var drawn := ArrowAfter(StartArrow(ArrowTarget(ancestor), showStraightArrows, start), moves);
      var r := Release(drawn, end, marker, id);
      r.Some? ==> !Reducer.Survives(r.value, removed)
  {
    var started := StartArrow(ArrowTarget(ancestor), showStraightArrows, start);
    ArrowAfterMoves(started, moves);
  }

  /** Removing either end marker of a committed arrow removes the arrow. */
  lemma CommittedArrowGoesWithEitherMarker(s: Reducer.State, arrow: UnfinishedArrow, end: Point,
                                           marker: Marker, id: Id, removed: Marker)
    requires arrow.fromMarker in arrow.dependencies
    requires Release(arrow, end, Some(marker), id).Some?
    requires removed.id == arrow.fromMarker || removed.id == marker.id
    ensures var committed := Release(arrow, end, Some(marker), id).value;
      var after := Reducer.Reduce(Reducer.Reduce(s, Reducer.AddArrow(committed)), Reducer.RemoveMarker(removed));
      committed !in after.arrows
  {
  }

  // ---------------------------------------------------------------------------
  // The provider's state

  /** The provider's `currentArrow` state, with its event handlers. */
  class ArrowDrawing {
    var currentArrow: Option<UnfinishedArrow>

    /** Every drag in progress depends on its own origin marker and has spaced waypoints. */
    ghost predicate Valid()
      reads this
    {
      currentArrow.Some? ==>
        && currentArrow.value.fromMarker in currentArrow.value.dependencies
        && Spaced(currentArrow.value.fromPoint, currentArrow.value.midPoints, MidPointSpacing)
    }

    constructor ()
      ensures currentArrow.None? && Valid()
    {
      currentArrow := None;
    }

    /** The Escape key handler. */
    method OnKeyDown(key: string)
      modifies this
      requires Valid()
      ensures Valid()
      ensures currentArrow == if key == "Escape" then None else old(currentArrow)
    {
      if key == "Escape" {
        currentArrow := None;
      }
    }

    /** `onMouseDown` on a marker or an arrow, at the event point. */
    method OnMouseDown(target: Target, showStraightArrows: bool, currentPoint: Point)
      modifies this
      ensures Valid()
      ensures currentArrow == Some(StartArrow(target, showStraightArrows, currentPoint))
    {
      var start := DragStartProperties(target, showStraightArrows, currentPoint);
      currentArrow := Some(UnfinishedArrow(start.fromMarker, start.fromPoint, [], None, currentPoint, start.dependencies));
    }

    /** `onMouseMove`, over a marker or over the background. */
    method OnMouseMove(currentPoint: Point, marker: Option<Marker>, showStraightArrows: bool)
      modifies this
      requires Valid()
      ensures Valid()
      ensures currentArrow == match old(currentArrow)
                              case None => None
                              case Some(arrow) => Some(MovedArrow(arrow, currentPoint, marker, showStraightArrows))
    {
      if currentArrow.None? {
        return;
      }
      var arrow := currentArrow.value;
      var markerIsOriginMarker := marker.Some? && marker.value.id == arrow.fromMarker;
      var lastPoint := if arrow.midPoints != [] then arrow.midPoints[|arrow.midPoints| - 1] else arrow.fromPoint;
      var newMidPoints := if !showStraightArrows && Distance(currentPoint, lastPoint) > MidPointSpacing
                          then arrow.midPoints + [currentPoint]
                          else arrow.midPoints;
      var toMarker := if markerIsOriginMarker || marker.None? then None else Some(marker.value.id);
      assert newMidPoints == NextMidPoints(arrow.midPoints, arrow.fromPoint, currentPoint, showStraightArrows, MidPointSpacing);
      currentArrow := Some(arrow.(midPoints := newMidPoints, toPoint := currentPoint, toMarker := toMarker));
    }

    /** `onMouseUp`, over a marker or over the background; `id` is the fresh id the source
      draws from `uuid()`. Returns the action dispatched, if any. */
    method OnMouseUp(currentPoint: Point, marker: Option<Marker>, id: Id) returns (dispatched: Option<Reducer.Action>)
      modifies this
      requires Valid()
      ensures Valid()
      ensures currentArrow.None?
      ensures dispatched == match old(currentArrow)
                            case None => None
                            case Some(arrow) =>
                              match Release(arrow, currentPoint, marker, id)
                              case None => None
                              case Some(committed) => Some(Reducer.AddArrow(committed))
    {
      if currentArrow.None? {
        return None;
      }
      var arrow := currentArrow.value;
      if marker.None? || marker.value.id == arrow.fromMarker {
        currentArrow := None;
        return None;
      }
      var committed := Arrow(id, arrow.fromMarker, arrow.fromPoint, arrow.midPoints, marker.value.id,
                             currentPoint, arrow.dependencies + {marker.value.id});
      dispatched := Some(Reducer.AddArrow(committed));
      currentArrow := None;
    }
  }
}
