/** The early arrow hook of src/hooks/useArrows.ts, built on the older shapes of
    src/types.ts: arrows hold their end markers whole and an `arrowDependencies` set of the
    arrow ids they were drawn from. The hook keeps its own arrow list, a straight-arrow
    setting (off at first) and the drag in progress; waypoints are recorded more than 3
    apart. */
module ArrowsHook {
  import opened Wrappers
  import opened Types
  import opened Geometry
  import opened Util
  import opened Dragging

  const MidPointSpacing: real := 3.0

  datatype OldArrow = OldArrow(
    fromPoint: Point,
    fromMarker: Marker,
    midPoints: seq<Point>,
    toPoint: Point,
    toMarker: Marker,
    id: Id,
    arrowDependencies: set<Id>)

  datatype OldUnfinishedArrow = OldUnfinishedArrow(
    fromPoint: Point,
    fromMarker: Marker,
    midPoints: seq<Point>,
    toPoint: Point,
    toMarker: Option<Marker>,
    arrowDependencies: set<Id>)

  datatype Target = MarkerTarget(marker: Marker) | ArrowTarget(arrow: OldArrow)

  /** The drag mouse-down starts, at the event point. From a marker it depends on nothing;
      from an arrow it starts at that arrow's origin marker and depends on the arrow and
      on every arrow that one depends on. */
  function StartDrag(target: Target, currentPoint: Point): (r: OldUnfinishedArrow)
    ensures r.fromPoint == currentPoint && r.toPoint == currentPoint
    ensures r.midPoints == [] && r.toMarker.None?
    ensures target.MarkerTarget? ==> r.fromMarker == target.marker && r.arrowDependencies == {}
    ensures target.ArrowTarget? ==>
      r.fromMarker == target.arrow.fromMarker
      && r.arrowDependencies == target.arrow.arrowDependencies + {target.arrow.id}
  {
    match target
    case ArrowTarget(arrow) =>
      OldUnfinishedArrow(currentPoint, arrow.fromMarker, [], currentPoint, None, arrow.arrowDependencies + {arrow.id})
    case MarkerTarget(marker) =>
      OldUnfinishedArrow(currentPoint, marker, [], currentPoint, None, {})
  }

  /** The drag after the cursor moves to `currentPoint` over `hovered`. */
  function MovedDrag(drag: OldUnfinishedArrow, currentPoint: Point, hovered: Option<Marker>, showStraightArrows: bool)
    : (r: OldUnfinishedArrow)
    ensures r.fromMarker == drag.fromMarker && r.fromPoint == drag.fromPoint
    ensures r.arrowDependencies == drag.arrowDependencies
    ensures r.toPoint == currentPoint
    ensures r.midPoints == NextMidPoints(drag.midPoints, drag.fromPoint, currentPoint, showStraightArrows, MidPointSpacing)
    ensures r.toMarker.Some? <==> hovered.Some? && hovered.value.id != drag.fromMarker.id
    ensures r.toMarker.Some? ==> r.toMarker == hovered
  {
    drag.(midPoints := NextMidPoints(drag.midPoints, drag.fromPoint, currentPoint, showStraightArrows, MidPointSpacing),
          toPoint := currentPoint,
          toMarker := HoveredMarker(hovered, drag.fromMarker.id))
  }

  /** The arrow mouse-up commits, if any: none off any marker or on the drag's origin;
      otherwise an arrow to that marker carrying the drag's dependencies unchanged. */
  function Commit(drag: OldUnfinishedArrow, currentPoint: Point, marker: Option<Marker>, id: Id): (r: Option<OldArrow>)
    ensures r.None? <==> marker.None? || marker.value.id == drag.fromMarker.id
    ensures r.Some? ==>
      && r.value.id == id && r.value.toMarker == marker.value && r.value.toPoint == currentPoint
      && r.value.fromMarker == drag.fromMarker && r.value.fromPoint == drag.fromPoint
      && r.value.midPoints == drag.midPoints
      && r.value.arrowDependencies == drag.arrowDependencies
  {
    match marker
    case None => None
    case Some(m) =>
      if m.id == drag.fromMarker.id then None
      else Some(OldArrow(drag.fromPoint, drag.fromMarker, drag.midPoints, currentPoint, m, id, drag.arrowDependencies))
  }

  /** Whether an arrow keeps clear of the marker with the given id at both ends. */
  predicate AvoidsMarker(arrow: OldArrow, id: Id)
  {
    arrow.fromMarker.id != id && arrow.toMarker.id != id
  }

  /** The list `removeArrowsWithMarkerId` keeps: in order, exactly the arrows that neither
      start nor end at the marker. */
  function ArrowsWithoutMarker(arrows: seq<OldArrow>, id: Id): (r: seq<OldArrow>)
    ensures Subsequence(r, arrows)
    ensures forall i :: 0 <= i < |r| ==> AvoidsMarker(r[i], id)
    ensures forall i :: 0 <= i < |arrows| && AvoidsMarker(arrows[i], id) ==> arrows[i] in r
  {
    Filter(arrows, (a: OldArrow) => AvoidsMarker(a, id))
  }

  /** Every arrow clear of the marker stays as many times as it was there; no copy of any other does. */
  lemma ArrowsWithoutMarkerCounts(arrows: seq<OldArrow>, id: Id)
    ensures forall a :: multiset(ArrowsWithoutMarker(arrows, id))[a] == if AvoidsMarker(a, id) then multiset(arrows)[a] else 0
  {
    FilterCounts(arrows, (a: OldArrow) => AvoidsMarker(a, id));
  }

  /** Whether an arrow survives the removal of the arrow with the given id. */
  predicate SurvivesArrow(arrow: OldArrow, id: Id)
  {
    arrow.id != id && id !in arrow.arrowDependencies
  }

  /** The list `removeArrowWithId` keeps: in order, exactly the arrows that neither are the
      removed arrow nor were drawn from it. */
  function ArrowsWithoutArrow(arrows: seq<OldArrow>, id: Id): (r: seq<OldArrow>)
    ensures Subsequence(r, arrows)
    ensures forall i :: 0 <= i < |r| ==> SurvivesArrow(r[i], id)
    ensures forall i :: 0 <= i < |arrows| && SurvivesArrow(arrows[i], id) ==> arrows[i] in r
  {
    Filter(arrows, (a: OldArrow) => SurvivesArrow(a, id))
  }

  /** Every surviving arrow stays as many times as it was there; no copy of any other does. */
  lemma ArrowsWithoutArrowCounts(arrows: seq<OldArrow>, id: Id)
    ensures forall a :: multiset(ArrowsWithoutArrow(arrows, id))[a] == if SurvivesArrow(a, id) then multiset(arrows)[a] else 0
  {
    FilterCounts(arrows, (a: OldArrow) => SurvivesArrow(a, id));
  }

  /** Removing a marker here looks only at arrow ends: an arrow drawn from an arrow that
      ends at the removed marker stays, although the arrow it was drawn from goes. */
  lemma {:induction false} MarkerRemovalKeepsDescendant(parent: OldArrow, child: OldArrow, id: Id)
    requires parent.toMarker.id == id && AvoidsMarker(child, id)
    ensures ArrowsWithoutMarker([parent, child], id) == [child]
  {
    var keep := (a: OldArrow) => AvoidsMarker(a, id);
    assert [parent, child][1..] == [child];
    assert [child][1..] == [];
    assert Filter([child], keep) == [child] + Filter([], keep);
  }

  /** The hook's state: the drag in progress, the arrow list and the straight setting. */
  class Arrows {
    var dragging: Option<OldUnfinishedArrow>
    var arrows: seq<OldArrow>
    var showStraightArrows: bool

    constructor ()
      ensures dragging.None? && arrows == [] && !showStraightArrows
    {
      dragging := None;
      arrows := [];
      showStraightArrows := false;
    }

    method OnMouseDown(target: Target, currentPoint: Point)
      modifies this
      ensures dragging == Some(StartDrag(target, currentPoint))
      ensures arrows == old(arrows) && showStraightArrows == old(showStraightArrows)
    {
      var marker := if target.ArrowTarget? then target.arrow.fromMarker else target.marker;
      var arrowDependencies := if target.ArrowTarget?
                               then target.arrow.arrowDependencies + {target.arrow.id}
                               else {};
      dragging := Some(OldUnfinishedArrow(currentPoint, marker, [], currentPoint, None, arrowDependencies));
    }

    method OnMouseMove(currentPoint: Point, marker: Option<Marker>)
      modifies this
      ensures dragging == match old(dragging)
                          case None => None
                          case Some(d) => Some(MovedDrag(d, currentPoint, marker, old(showStraightArrows)))
      ensures arrows == old(arrows) && showStraightArrows == old(showStraightArrows)
    {
      if dragging.None? {
        return;
      }
      var d := dragging.value;
      var markerIsOriginMarker := marker.Some? && marker.value.id == d.fromMarker.id;
      var lastPoint := if d.midPoints != [] then d.midPoints[|d.midPoints| - 1] else d.fromPoint;
      var newMidPoints := if !showStraightArrows && Distance(currentPoint, lastPoint) > MidPointSpacing
                          then d.midPoints + [currentPoint]
                          else d.midPoints;
      dragging := Some(d.(midPoints := newMidPoints, toPoint := currentPoint,
                          toMarker := if markerIsOriginMarker then None else marker));
    }

    /** `id` is the fresh id the source draws from `uuid()`. */
    method OnMouseUp(currentPoint: Point, marker: Option<Marker>, id: Id)
      modifies this
      ensures dragging.None?
      ensures arrows == old(arrows) + match old(dragging)
                                       case None => []
                                       case Some(d) =>
                                         match Commit(d, currentPoint, marker, id)
                                         case None => []
                                         case Some(arrow) => [arrow]
      ensures showStraightArrows == old(showStraightArrows)
    {
      if dragging.None? {
        return;
      }
      var d := dragging.value;
      if marker.None? || marker.value.id == d.fromMarker.id {
        dragging := None;
        return;
      }
      var arrow := OldArrow(d.fromPoint, d.fromMarker, d.midPoints, currentPoint, marker.value, id, d.arrowDependencies);
      arrows := arrows + [arrow];
      dragging := None;
    }

    method RemoveArrowsWithMarkerId(id: Id)
      modifies this
      ensures arrows == ArrowsWithoutMarker(old(arrows), id)
      ensures dragging == old(dragging) && showStraightArrows == old(showStraightArrows)
    {
      arrows := Filter(arrows, (arrow: OldArrow) => AvoidsMarker(arrow, id));
    }

    method RemoveArrowWithId(id: Id)
      modifies this
      ensures arrows == ArrowsWithoutArrow(old(arrows), id)
      ensures dragging == old(dragging) && showStraightArrows == old(showStraightArrows)
    {
      arrows := Filter(arrows, (arrow: OldArrow) => SurvivesArrow(arrow, id));
    }

    method SetShowStraightArrows(show: bool)
      modifies this
      ensures showStraightArrows == show
      ensures dragging == old(dragging) && arrows == old(arrows)
    {
      showStraightArrows := show;
    }
  }
}
