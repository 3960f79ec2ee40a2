/** The earlier drag-to-draw hook of src/hooks/useArrowDrawing.ts. Its arrows carry whole
    markers rather than marker ids; a drag started on an arrow keeps the event point as its
    start (no snapping onto the arrow), and waypoints are recorded more than 5 apart. */
module ArrowDrawingHook {
  import opened Wrappers
  import opened Types
  import opened Geometry
  import opened Dragging

  const MidPointSpacing: real := 5.0

  /** A committed arrow of this hook: end markers held as markers. */
  datatype HookArrow = HookArrow(
    id: Id,
    fromMarker: Marker,
    fromPoint: Point,
    midPoints: seq<Point>,
    toMarker: Marker,
    toPoint: Point,
    dependencies: set<Id>)

  /** The arrow being drawn. */
  datatype Drag = Drag(
    fromMarker: Marker,
    fromPoint: Point,
    midPoints: seq<Point>,
    toPoint: Point,
    toMarker: Option<Marker>,
    dependencies: set<Id>)

  datatype Target = MarkerTarget(marker: Marker) | ArrowTarget(arrow: HookArrow)

  /** The drag mouse-down starts: from the event point, from the marker (an arrow's own
      origin marker, for an arrow), depending on that marker and, from an arrow, on the
      arrow and everything it depends on. */
  function StartDrag(target: Target, currentPoint: Point): (r: Drag)
    ensures r.fromPoint == currentPoint && r.toPoint == currentPoint
    ensures r.midPoints == [] && r.toMarker.None?
    ensures r.fromMarker.id in r.dependencies
    ensures target.MarkerTarget? ==> r.fromMarker == target.marker && r.dependencies == {target.marker.id}
    ensures target.ArrowTarget? ==>
      && r.fromMarker == target.arrow.fromMarker
      && target.arrow.dependencies + {target.arrow.id} <= r.dependencies
      && r.dependencies - target.arrow.dependencies <= {target.arrow.id, target.arrow.fromMarker.id}
  {
    var marker := match target
                  case ArrowTarget(arrow) => arrow.fromMarker
                  case MarkerTarget(m) => m;
    var dependencies := match target
                        case ArrowTarget(arrow) => arrow.dependencies + {arrow.id, marker.id}
                        case MarkerTarget(_) => {marker.id};
    Drag(marker, currentPoint, [], currentPoint, None, dependencies)
  }

  /** The drag after the cursor moves to `currentPoint` over `hovered`. */
  function MovedDrag(drag: Drag, currentPoint: Point, hovered: Option<Marker>, showStraightArrows: bool): (r: Drag)
    ensures r.fromMarker == drag.fromMarker && r.fromPoint == drag.fromPoint
    ensures r.dependencies == drag.dependencies
    ensures r.toPoint == currentPoint
    ensures r.midPoints == NextMidPoints(drag.midPoints, drag.fromPoint, currentPoint, showStraightArrows, MidPointSpacing)
    ensures r.toMarker.Some? <==> hovered.Some? && hovered.value.id != drag.fromMarker.id
    ensures r.toMarker.Some? ==> r.toMarker == hovered
  {
    drag.(midPoints := NextMidPoints(drag.midPoints, drag.fromPoint, currentPoint, showStraightArrows, MidPointSpacing),
          toPoint := currentPoint,
          toMarker := HoveredMarker(hovered, drag.fromMarker.id))
  }

  /** The `addArrow` payload mouse-up produces, if any: none off any marker or on the
      drag's origin; otherwise an arrow to that marker, depending on it as well. */
  function Release(drag: Drag, currentPoint: Point, marker: Option<Marker>, id: Id): (r: Option<HookArrow>)
    ensures r.None? <==> marker.None? || marker.value.id == drag.fromMarker.id
    ensures r.Some? ==>
      && r.value.id == id && r.value.toMarker == marker.value && r.value.toPoint == currentPoint
      && r.value.fromMarker == drag.fromMarker && r.value.fromPoint == drag.fromPoint
      && r.value.midPoints == drag.midPoints
      && r.value.dependencies == drag.dependencies + {marker.value.id}
    ensures r.Some? && drag.fromMarker.id in drag.dependencies ==>
      r.value.fromMarker.id in r.value.dependencies && r.value.toMarker.id in r.value.dependencies
  {
    match marker
    case None => None
    case Some(m) =>
      if m.id == drag.fromMarker.id then None
      else Some(HookArrow(id, drag.fromMarker, drag.fromPoint, drag.midPoints, m, currentPoint,
                          drag.dependencies + {m.id}))
  }

  /** The hook's `drag` state, with its event handlers. */
  class ArrowDrawing {
    var drag: Option<Drag>

    /** A drag in progress depends on its origin marker and has spaced waypoints. */
    ghost predicate Valid()
      reads this
    {
      drag.Some? ==>
        drag.value.fromMarker.id in drag.value.dependencies
        && Spaced(drag.value.fromPoint, drag.value.midPoints, MidPointSpacing)
    }

    constructor ()
      ensures drag.None? && Valid()
    {
      drag := None;
    }

    method OnMouseDown(target: Target, currentPoint: Point)
      modifies this
      ensures Valid()
      ensures drag == Some(StartDrag(target, currentPoint))
    {
      var marker := if target.ArrowTarget? then target.arrow.fromMarker else target.marker;
      var dependencies := if target.ArrowTarget?
                          then target.arrow.dependencies + {target.arrow.id, marker.id}
                          else {marker.id};
      drag := Some(Drag(marker, currentPoint, [], currentPoint, None, dependencies));
    }

    method OnMouseMove(currentPoint: Point, marker: Option<Marker>, showStraightArrows: bool)
      modifies this
      requires Valid()
      ensures Valid()
      ensures drag == match old(drag)
                      case None => None
                      case Some(d) => Some(MovedDrag(d, currentPoint, marker, showStraightArrows))
    {
      if drag.None? {
        return;
      }
      var d := drag.value;
      var markerIsOriginMarker := marker.Some? && marker.value.id == d.fromMarker.id;
      var lastPoint := if d.midPoints != [] then d.midPoints[|d.midPoints| - 1] else d.fromPoint;
      var newMidPoints := if !showStraightArrows && Distance(currentPoint, lastPoint) > MidPointSpacing
                          then d.midPoints + [currentPoint]
                          else d.midPoints;
      assert newMidPoints == NextMidPoints(d.midPoints, d.fromPoint, currentPoint, showStraightArrows, MidPointSpacing);
      drag := Some(d.(midPoints := newMidPoints, toPoint := currentPoint,
                      toMarker := if markerIsOriginMarker then None else marker));
    }

    /** Returns the payload of the `addArrow` it dispatches, if any; `id` is the fresh id
        the source draws from `uuid()`. */
    method OnMouseUp(currentPoint: Point, marker: Option<Marker>, id: Id) returns (dispatched: Option<HookArrow>)
      modifies this
      requires Valid()
      ensures Valid()
      ensures drag.None?
      ensures dispatched == match old(drag)
                            case None => None
                            case Some(d) => Release(d, currentPoint, marker, id)
    {
      if drag.None? {
        return None;
      }
      var d := drag.value;
      if marker.None? || marker.value.id == d.fromMarker.id {
        drag := None;
        return None;
      }
      dispatched := Some(HookArrow(id, d.fromMarker, d.fromPoint, d.midPoints, marker.value, currentPoint,
                                   d.dependencies + {marker.value.id}));
      drag := None;
    }
  }

  /** The drag after a run of moves. */
  function DragAfter(drag: Drag, moves: seq<Move>): Drag
    decreases |moves|
  {
    if moves == [] then drag
    else DragAfter(MovedDrag(drag, moves[0].point, moves[0].hovered, moves[0].straight), moves[1..])
  }

  /** Moves keep a drag's origin and dependencies. */
  lemma {:induction false} DragAfterMoves(drag: Drag, moves: seq<Move>)
    ensures var r := DragAfter(drag, moves);
      && r.fromMarker == drag.fromMarker && r.fromPoint == drag.fromPoint
      && r.dependencies == drag.dependencies
      && r.midPoints == MidPointsAfter(drag.midPoints, drag.fromPoint, moves, MidPointSpacing)
    decreases |moves|
  {
    if moves != [] {
      DragAfterMoves(MovedDrag(drag, moves[0].point, moves[0].hovered, moves[0].straight), moves[1..]);
    }
  }

  /** Whatever the drag, a committed arrow depends on both of its end markers and starts
      exactly where the mouse went down. */
  lemma CommittedArrowDependsOnBothEnds(target: Target, start: Point, moves: seq<Move>,
                                        end: Point, marker: Option<Marker>, id: Id)
    ensures var r := Release(DragAfter(StartDrag(target, start), moves), end, marker, id);
      r.Some? ==>
        && r.value.fromMarker.id in r.value.dependencies && r.value.toMarker.id in r.value.dependencies
        && r.value.fromPoint == start
  {
    DragAfterMoves(StartDrag(target, start), moves);
  }
}
