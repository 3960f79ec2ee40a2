/** The shapes shared by the geometry, the annotation reducer and the current drag-to-draw
    provider: points and rectangles in container coordinates, markers, and arrows whose
    end markers are referred to by id and whose dependencies are a set of ids. */
module Types {
  import opened Wrappers

  type Id = string
  type Color = string

  datatype Point = Point(x: real, y: real)

  /** An axis-aligned rectangle as the browser reports it; `width` and `height` are
      carried along but no operation of the model reads them. */
  datatype Rect = Rect(top: real, bottom: real, left: real, right: real, width: real, height: real)

  /** A coloured highlight over a span of code: a rectangle with an id and a colour. */
  datatype Marker = Marker(rect: Rect, id: Id, color: Color)

  /** A committed arrow. `dependencies` holds every marker and arrow id whose removal
      must remove this arrow too. */
  datatype Arrow = Arrow(
    id: Id,
    fromMarker: Id,
    fromPoint: Point,
    midPoints: seq<Point>,
    toMarker: Id,
    toPoint: Point,
    dependencies: set<Id>)

  /** The arrow being drawn: no id yet, and possibly no target marker. */
  datatype UnfinishedArrow = UnfinishedArrow(
    fromMarker: Id,
    fromPoint: Point,
    midPoints: seq<Point>,
    toMarker: Option<Id>,
    toPoint: Point,
    dependencies: set<Id>)

  /** `[fromPoint, ...midPoints, toPoint]`, the polyline an arrow is drawn along. */
  function AllPoints(fromPoint: Point, midPoints: seq<Point>, toPoint: Point): (r: seq<Point>)
    ensures |r| == |midPoints| + 2 && r[0] == fromPoint && r[|r| - 1] == toPoint
    ensures r[1..|r| - 1] == midPoints
  {
    [fromPoint] + midPoints + [toPoint]
  }
}
