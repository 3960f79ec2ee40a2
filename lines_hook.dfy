/** The line hook of src/hooks/useLines.ts: lines drawn from one marker to another, kept in
    the hook's own list. Lines start only on markers, carry no dependencies, and are straight
    unless the setting (on at first) is turned off; waypoints are recorded more than 3 apart.
    The `Line` and `UnfinishedLine` shapes it imports are not among the shapes of
    src/types.ts; they are given here by the fields the hook reads and writes. */
module LinesHook {
  import opened Wrappers
  import opened Types
  import opened Geometry
  import opened Util
  import opened Dragging

  const MidPointSpacing: real := 3.0

  datatype Line = Line(
    fromMarker: Marker,
    fromPoint: Point,
    midPoints: seq<Point>,
    toMarker: Marker,
    toPoint: Point,
    id: Id)

  datatype UnfinishedLine = UnfinishedLine(
    fromMarker: Marker,
    fromPoint: Point,
    midPoints: seq<Point>,
    toPoint: Point,
    toMarker: Option<Marker>)

  /** The line mouse-down starts on a marker, at the event point. */
  function StartLine(marker: Marker, currentPoint: Point): (r: UnfinishedLine)
    ensures r.fromMarker == marker && r.fromPoint == currentPoint && r.toPoint == currentPoint
    ensures r.midPoints == [] && r.toMarker.None?
  {
    UnfinishedLine(marker, currentPoint, [], currentPoint, None)
  }

  /** The line after the cursor moves to `currentPoint` over `hovered`. */
  function MovedLine(line: UnfinishedLine, currentPoint: Point, hovered: Option<Marker>, showStraightLines: bool)
    : (r: UnfinishedLine)
    ensures r.fromMarker == line.fromMarker && r.fromPoint == line.fromPoint
    ensures r.toPoint == currentPoint
    ensures r.midPoints == NextMidPoints(line.midPoints, line.fromPoint, currentPoint, showStraightLines, MidPointSpacing)
    ensures r.toMarker.Some? <==> hovered.Some? && hovered.value.id != line.fromMarker.id
    ensures r.toMarker.Some? ==> r.toMarker == hovered
  {
    line.(midPoints := NextMidPoints(line.midPoints, line.fromPoint, currentPoint, showStraightLines, MidPointSpacing),
          toPoint := currentPoint,
          toMarker := HoveredMarker(hovered, line.fromMarker.id))
  }

  /** The line mouse-up commits, if any: none off any marker or on the line's origin;
      otherwise a line to that marker ending at the event point. */
  function Commit(line: UnfinishedLine, currentPoint: Point, marker: Option<Marker>, id: Id): (r: Option<Line>)
    ensures r.None? <==> marker.None? || marker.value.id == line.fromMarker.id
    ensures r.Some? ==>
      && r.value.id == id && r.value.toMarker == marker.value && r.value.toPoint == currentPoint
      && r.value.fromMarker == line.fromMarker && r.value.fromPoint == line.fromPoint
      && r.value.midPoints == line.midPoints
      && r.value.fromMarker != r.value.toMarker
  {
    match marker
    case None => None
    case Some(m) =>
      if m.id == line.fromMarker.id then None
      else Some(Line(line.fromMarker, line.fromPoint, line.midPoints, m, currentPoint, id))
  }

  /** Whether a line keeps clear of the marker with the given id at both ends. */
  predicate AvoidsMarker(line: Line, id: Id)
  {
    line.fromMarker.id != id && line.toMarker.id != id
  }

  /** The list `removeLinesWithMarkerId` keeps: in order, exactly the lines that neither
      start nor end at the marker. */
  function LinesWithoutMarker(lines: seq<Line>, id: Id): (r: seq<Line>)
    ensures Subsequence(r, lines)
    ensures forall i :: 0 <= i < |r| ==> AvoidsMarker(r[i], id)
    ensures forall i :: 0 <= i < |lines| && AvoidsMarker(lines[i], id) ==> lines[i] in r
  {
    Filter(lines, (l: Line) => AvoidsMarker(l, id))
  }

  /** Every line clear of the marker stays as many times as it was there; no copy of any other does. */
  lemma LinesWithoutMarkerCounts(lines: seq<Line>, id: Id)
    ensures forall l :: multiset(LinesWithoutMarker(lines, id))[l] == if AvoidsMarker(l, id) then multiset(lines)[l] else 0
  {
    FilterCounts(lines, (l: Line) => AvoidsMarker(l, id));
  }

  /** The line after a run of moves. */
  function LineAfter(line: UnfinishedLine, moves: seq<Move>): UnfinishedLine
    decreases |moves|
  {
    if moves == [] then line
    else LineAfter(MovedLine(line, moves[0].point, moves[0].hovered, moves[0].straight), moves[1..])
  }

  /** Moves keep a line's origin; its waypoints are those the moves leave behind. */
  lemma {:induction false} LineAfterMoves(line: UnfinishedLine, moves: seq<Move>)
    ensures var r := LineAfter(line, moves);
      && r.fromMarker == line.fromMarker && r.fromPoint == line.fromPoint
      && r.midPoints == MidPointsAfter(line.midPoints, line.fromPoint, moves, MidPointSpacing)
    decreases |moves|
  {
    if moves != [] {
      LineAfterMoves(MovedLine(line, moves[0].point, moves[0].hovered, moves[0].straight), moves[1..]);
    }
  }

  /** With straight lines on throughout the drag, as they are until the setting is
      changed, a committed line has no waypoints. */
  lemma StraightLineHasNoWaypoints(marker: Marker, start: Point, moves: seq<Move>,
                                   end: Point, target: Option<Marker>, id: Id)
    requires forall i :: 0 <= i < |moves| ==> moves[i].straight
    ensures var r := Commit(LineAfter(StartLine(marker, start), moves), end, target, id);
      r.Some? ==> r.value.midPoints == [] && r.value.fromMarker == marker && r.value.fromPoint == start
  {
    LineAfterMoves(StartLine(marker, start), moves);
    MidPointsAfterMoves([], start, moves, MidPointSpacing);
  }

  /** The hook's state: the line being drawn, the line list and the straight setting. */
  class Lines {
    var dragging: Option<UnfinishedLine>
    var lines: seq<Line>
    var showStraightLines: bool

    constructor ()
      ensures dragging.None? && lines == [] && showStraightLines
    {
      dragging := None;
      lines := [];
      showStraightLines := true;
    }

    method OnMouseDown(marker: Marker, currentPoint: Point)
      modifies this
      ensures dragging == Some(StartLine(marker, currentPoint))
      ensures lines == old(lines) && showStraightLines == old(showStraightLines)
    {
      dragging := Some(UnfinishedLine(marker, currentPoint, [], currentPoint, None));
    }

    method OnMouseMove(currentPoint: Point, marker: Option<Marker>)
      modifies this
      ensures dragging == match old(dragging)
                          case None => None
                          case Some(d) => Some(MovedLine(d, currentPoint, marker, old(showStraightLines)))
      ensures lines == old(lines) && showStraightLines == old(showStraightLines)
    {
      if dragging.None? {
        return;
      }
      var d := dragging.value;
      var markerIsOriginMarker := marker.Some? && marker.value.id == d.fromMarker.id;
      var lastPoint := if d.midPoints != [] then d.midPoints[|d.midPoints| - 1] else d.fromPoint;
      var newMidPoints := if !showStraightLines && Distance(currentPoint, lastPoint) > MidPointSpacing
                          then d.midPoints + [currentPoint]
                          else d.midPoints;
      dragging := Some(d.(midPoints := newMidPoints, toPoint := currentPoint,
                          toMarker := if markerIsOriginMarker then None else marker));
    }

    /** `id` is the fresh id the source draws from `uuid()`. */
    method OnMouseUp(currentPoint: Point, marker: Option<Marker>, id: Id)
      modifies this
      ensures dragging.None?
      ensures lines == old(lines) + match old(dragging)
                                     case None => []
                                     case Some(d) =>
                                       match Commit(d, currentPoint, marker, id)
                                       case None => []
                                       case Some(line) => [line]
      ensures showStraightLines == old(showStraightLines)
    {
      if dragging.None? {
        return;
      }
      var d := dragging.value;
      if marker.None? || marker.value.id == d.fromMarker.id {
        dragging := None;
        return;
      }
      lines := lines + [Line(d.fromMarker, d.fromPoint, d.midPoints, marker.value, currentPoint, id)];
      dragging := None;
    }

    method RemoveLinesWithMarkerId(id: Id)
      modifies this
      ensures lines == LinesWithoutMarker(old(lines), id)
      ensures dragging == old(dragging) && showStraightLines == old(showStraightLines)
    {
      lines := Filter(lines, (line: Line) => AvoidsMarker(line, id));
    }

    method SetShowStraightLines(show: bool)
      modifies this
      ensures showStraightLines == show
      ensures dragging == old(dragging) && lines == old(lines)
    {
      showStraightLines := show;
    }
  }
}
