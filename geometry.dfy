/** The arrow geometry of src/geometry.ts: where a segment first crosses a marker's
    rectangle, where an arrow is cut off at its target marker, which point the arrowhead's
    angle is taken from, and the point of a polyline nearest to a given point.

    Coordinates are exact reals. `Math.atan2` is kept abstract: a `Heading(from, to)`
    stands for the angle of the vector from `from` to `to`. */
module Geometry {
  import opened Wrappers
  import opened Types
  import opened Util

  /** The two errors geometry.ts throws. */
  datatype GeometryError =
    | NoIntersection   // "Can't find the intersection of a line with a marker"
    | NotEnoughPoints  // "Not enough points on polyline"

  /** A candidate crossing of a segment with one rectangle edge: the segment parameter
      `t` and the point reached there. */
  datatype Crossing = Crossing(t: real, pt: Point)

  /** The arrowhead's direction: the angle of the vector from `from` to `to`. */
  datatype Heading = Heading(from: Point, to: Point)

  function Abs(r: real): real { if r < 0.0 then -r else r }

  /** `p1 + t (p2 - p1)`. */
  function PointAlong(p1: Point, p2: Point, t: real): Point
  {
    Point(p1.x + t * (p2.x - p1.x), p1.y + t * (p2.y - p1.y))
  }

  /** `q` lies on the segment from `a` to `b`. */
  ghost predicate OnSegment(q: Point, a: Point, b: Point)
  {
    exists t :: 0.0 <= t <= 1.0 && q == PointAlong(a, b, t)
  }

  lemma PointAlongEnds(p1: Point, p2: Point)
    ensures PointAlong(p1, p2, 0.0) == p1 && PointAlong(p1, p2, 1.0) == p2
  {
  }

  // ---------------------------------------------------------------------------
  // Distances and rectangles

  /** `distanceBetweenPoints`: the Chebyshev distance, max(|dx|, |dy|). */
  function Distance(a: Point, b: Point): (d: real)
    ensures d >= 0.0
    ensures d == 0.0 <==> a == b
    ensures Abs(a.x - b.x) <= d && Abs(a.y - b.y) <= d
    ensures d == Abs(a.x - b.x) || d == Abs(a.y - b.y)
  {
    Max(Abs(a.x - b.x), Abs(a.y - b.y))
  }

  lemma DistanceSymmetric(a: Point, b: Point)
    ensures Distance(a, b) == Distance(b, a)
  {
  }

  /** `isPointInRect`: inside or on the border, whichever way round the bounds are given. */
  function IsPointInRect(p: Point, rect: Rect): (inside: bool)
    ensures inside <==> (Min(rect.left, rect.right) <= p.x <= Max(rect.left, rect.right)
                      && Min(rect.top, rect.bottom) <= p.y <= Max(rect.top, rect.bottom))
  {
    IsMonotonous(rect.left, p.x, rect.right) && IsMonotonous(rect.top, p.y, rect.bottom)
  }

  /** `p` lies on one of the four edges of `rect`. */
  predicate OnBoundary(p: Point, rect: Rect)
  {
    || ((p.y == rect.top || p.y == rect.bottom) && IsMonotonous(rect.left, p.x, rect.right))
    || ((p.x == rect.left || p.x == rect.right) && IsMonotonous(rect.top, p.y, rect.bottom))
  }

  // ---------------------------------------------------------------------------
  // Segment against one edge

  lemma DivThenMul(a: real, b: real)
    requires b != 0.0
    ensures (a / b) * b == a
  {
  }

  /** `horizontalLineIntersection`: where segment p1-p2 crosses the horizontal edge at
      height `y` spanning x1..x2; none when the segment is horizontal itself. */
  function HorizontalLineIntersection(p1: Point, p2: Point, x1: real, x2: real, y: real): (r: Option<Crossing>)
    ensures p1.y == p2.y ==> r == None
    ensures r.Some? ==> 0.0 <= r.value.t <= 1.0 && r.value.pt == PointAlong(p1, p2, r.value.t)
    ensures r.Some? ==> r.value.pt.y == y && IsMonotonous(x1, r.value.pt.x, x2)
  {
    if p1.y == p2.y then None
    else
      var t := (y - p1.y) / (p2.y - p1.y);
      var x := p1.x + t * (p2.x - p1.x);
      DivThenMul(y - p1.y, p2.y - p1.y);
      if IsMonotonous(0.0, t, 1.0) && IsMonotonous(x1, x, x2) then Some(Crossing(t, Point(x, y)))
      else None
  }

  /** `verticalLineIntersection`: where segment p1-p2 crosses the vertical edge at `x`
      spanning y1..y2; none when the segment is vertical itself. */
  function VerticalLineIntersection(p1: Point, p2: Point, x: real, y1: real, y2: real): (r: Option<Crossing>)
    ensures p1.x == p2.x ==> r == None
    ensures r.Some? ==> 0.0 <= r.value.t <= 1.0 && r.value.pt == PointAlong(p1, p2, r.value.t)
    ensures r.Some? ==> r.value.pt.x == x && IsMonotonous(y1, r.value.pt.y, y2)
  {
    if p1.x == p2.x then None
    else
      var t := (x - p1.x) / (p2.x - p1.x);
      var y := p1.y + t * (p2.y - p1.y);
      DivThenMul(x - p1.x, p2.x - p1.x);
      if IsMonotonous(0.0, t, 1.0) && IsMonotonous(y1, y, y2) then Some(Crossing(t, Point(x, y)))
      else None
  }

  /** Any crossing of a horizontal edge is found, with its parameter. */
  lemma HorizontalLineIntersectionFinds(p1: Point, p2: Point, x1: real, x2: real, y: real, t: real)
    requires p1.y != p2.y && 0.0 <= t <= 1.0
    requires PointAlong(p1, p2, t).y == y && IsMonotonous(x1, PointAlong(p1, p2, t).x, x2)
    ensures HorizontalLineIntersection(p1, p2, x1, x2, y) == Some(Crossing(t, PointAlong(p1, p2, t)))
  {
    var d := p2.y - p1.y;
    assert t * d == y - p1.y;
    calc {
      (y - p1.y) / d;
      (t * d) / d;
      t;
    }
  }

  /** Any crossing of a vertical edge is found, with its parameter. */
  lemma VerticalLineIntersectionFinds(p1: Point, p2: Point, x: real, y1: real, y2: real, t: real)
    requires p1.x != p2.x && 0.0 <= t <= 1.0
    requires PointAlong(p1, p2, t).x == x && IsMonotonous(y1, PointAlong(p1, p2, t).y, y2)
    ensures VerticalLineIntersection(p1, p2, x, y1, y2) == Some(Crossing(t, PointAlong(p1, p2, t)))
  {
    var d := p2.x - p1.x;
    assert t * d == x - p1.x;
    calc {
      (x - p1.x) / d;
      (t * d) / d;
      t;
    }
  }

  lemma PointAlongReversed(a: Point, b: Point, t: real)
    ensures PointAlong(b, a, 1.0 - t) == PointAlong(a, b, t)
  {
  }

  /** Travelling the segment the other way round meets the same edges. */
  lemma HorizontalLineIntersectionReversed(a: Point, b: Point, x1: real, x2: real, y: real)
    ensures HorizontalLineIntersection(a, b, x1, x2, y).Some? ==> HorizontalLineIntersection(b, a, x1, x2, y).Some?
  {
    var h := HorizontalLineIntersection(a, b, x1, x2, y);
    if h.Some? {
      PointAlongReversed(a, b, h.value.t);
      HorizontalLineIntersectionFinds(b, a, x1, x2, y, 1.0 - h.value.t);
    }
  }

  lemma VerticalLineIntersectionReversed(a: Point, b: Point, x: real, y1: real, y2: real)
    ensures VerticalLineIntersection(a, b, x, y1, y2).Some? ==> VerticalLineIntersection(b, a, x, y1, y2).Some?
  {
    var v := VerticalLineIntersection(a, b, x, y1, y2);
    if v.Some? {
      PointAlongReversed(a, b, v.value.t);
      VerticalLineIntersectionFinds(b, a, x, y1, y2, 1.0 - v.value.t);
    }
  }

  // ---------------------------------------------------------------------------
  // Segment against a rectangle

  /** The four edge candidates in the order geometry.ts lists them (top, bottom, left,
      right), with the missing ones dropped. */
  function Crossings(p1: Point, p2: Point, rect: Rect): (cs: seq<Crossing>)
    ensures forall i :: 0 <= i < |cs| ==>
      && 0.0 <= cs[i].t <= 1.0
      && cs[i].pt == PointAlong(p1, p2, cs[i].t)
      && OnBoundary(cs[i].pt, rect)
      && IsPointInRect(cs[i].pt, rect)
  {
    Somes([
      HorizontalLineIntersection(p1, p2, rect.left, rect.right, rect.top),
      HorizontalLineIntersection(p1, p2, rect.left, rect.right, rect.bottom),
      VerticalLineIntersection(p1, p2, rect.left, rect.top, rect.bottom),
      VerticalLineIntersection(p1, p2, rect.right, rect.top, rect.bottom)
    ])
  }

  /** The candidate `minBy` picks: least `t`, the earliest in edge order on ties. */
  function FirstCrossing(p1: Point, p2: Point, rect: Rect): (r: Option<Crossing>)
    ensures r.None? <==> Crossings(p1, p2, rect) == []
    ensures r.Some? ==> var cs := Crossings(p1, p2, rect);
      exists i :: 0 <= i < |cs| && cs[i] == r.value
        && (forall j :: 0 <= j < |cs| ==> cs[i].t <= cs[j].t)
        && (forall j :: 0 <= j < i ==> cs[i].t < cs[j].t)
  {
    var cs := Crossings(p1, p2, rect);
    if cs == [] then None else Some(cs[MinIndex(cs, (c: Crossing) => c.t)])
  }

  /** `lineRectIntersection`: the first point at which the segment from p1 to p2 meets
      the border of `rect`, travelling from p1. */
  function LineRectIntersection(p1: Point, p2: Point, rect: Rect): (r: Option<Point>)
    ensures r.None? <==> Crossings(p1, p2, rect) == []
    ensures r.Some? ==> IsPointInRect(r.value, rect) && OnBoundary(r.value, rect)
    ensures r.Some? ==> OnSegment(r.value, p1, p2)
  {
    match FirstCrossing(p1, p2, rect)
    case None => None
    case Some(c) => Some(c.pt)
  }

  /** The segment, parameter `s`, is on an edge it is not parallel to. */
  predicate CrossesEdgeAt(p1: Point, p2: Point, rect: Rect, s: real)
  {
    var q := PointAlong(p1, p2, s);
    || (p1.y != p2.y && (q.y == rect.top || q.y == rect.bottom) && IsMonotonous(rect.left, q.x, rect.right))
    || (p1.x != p2.x && (q.x == rect.left || q.x == rect.right) && IsMonotonous(rect.top, q.y, rect.bottom))
  }

  lemma CrossingListed(p1: Point, p2: Point, rect: Rect, s: real)
    requires 0.0 <= s <= 1.0 && CrossesEdgeAt(p1, p2, rect, s)
    ensures Crossing(s, PointAlong(p1, p2, s)) in Crossings(p1, p2, rect)
  {
    var q := PointAlong(p1, p2, s);
    var os := [
      HorizontalLineIntersection(p1, p2, rect.left, rect.right, rect.top),
      HorizontalLineIntersection(p1, p2, rect.left, rect.right, rect.bottom),
      VerticalLineIntersection(p1, p2, rect.left, rect.top, rect.bottom),
      VerticalLineIntersection(p1, p2, rect.right, rect.top, rect.bottom)
    ];
    var k: nat;
    if p1.y != p2.y && q.y == rect.top && IsMonotonous(rect.left, q.x, rect.right) {
      HorizontalLineIntersectionFinds(p1, p2, rect.left, rect.right, rect.top, s);
      k := 0;
    } else if p1.y != p2.y && q.y == rect.bottom && IsMonotonous(rect.left, q.x, rect.right) {
      HorizontalLineIntersectionFinds(p1, p2, rect.left, rect.right, rect.bottom, s);
      k := 1;
    } else if q.x == rect.left {
      VerticalLineIntersectionFinds(p1, p2, rect.left, rect.top, rect.bottom, s);
      k := 2;
    } else {
      VerticalLineIntersectionFinds(p1, p2, rect.right, rect.top, rect.bottom, s);
      k := 3;
    }
    assert os[k] == Some(Crossing(s, q));
  }

  /** Whenever the segment crosses an edge it is not parallel to, `lineRectIntersection`
      finds a crossing, and one no farther from p1. */
  lemma LineRectIntersectionIsFirst(p1: Point, p2: Point, rect: Rect, s: real)
    requires 0.0 <= s <= 1.0 && CrossesEdgeAt(p1, p2, rect, s)
    ensures FirstCrossing(p1, p2, rect).Some? && FirstCrossing(p1, p2, rect).value.t <= s
    ensures LineRectIntersection(p1, p2, rect) == Some(FirstCrossing(p1, p2, rect).value.pt)
  {
    CrossingListed(p1, p2, rect, s);
    var cs := Crossings(p1, p2, rect);
    var k :| 0 <= k < |cs| && cs[k] == Crossing(s, PointAlong(p1, p2, s));
  }

  /** The same segment travelled backwards meets the rectangle too. */
  lemma LineRectIntersectionReversed(a: Point, b: Point, rect: Rect)
    ensures LineRectIntersection(a, b, rect).Some? ==> LineRectIntersection(b, a, rect).Some?
  {
    var cs := Crossings(a, b, rect);
    if cs != [] {
      var forward := [
        HorizontalLineIntersection(a, b, rect.left, rect.right, rect.top),
        HorizontalLineIntersection(a, b, rect.left, rect.right, rect.bottom),
        VerticalLineIntersection(a, b, rect.left, rect.top, rect.bottom),
        VerticalLineIntersection(a, b, rect.right, rect.top, rect.bottom)
      ];
      var backward := [
        HorizontalLineIntersection(b, a, rect.left, rect.right, rect.top),
        HorizontalLineIntersection(b, a, rect.left, rect.right, rect.bottom),
        VerticalLineIntersection(b, a, rect.left, rect.top, rect.bottom),
        VerticalLineIntersection(b, a, rect.right, rect.top, rect.bottom)
      ];
      HorizontalLineIntersectionReversed(a, b, rect.left, rect.right, rect.top);
      HorizontalLineIntersectionReversed(a, b, rect.left, rect.right, rect.bottom);
      VerticalLineIntersectionReversed(a, b, rect.left, rect.top, rect.bottom);
      VerticalLineIntersectionReversed(a, b, rect.right, rect.top, rect.bottom);
      assert Some(cs[0]) in forward;
      var k :| 0 <= k < 4 && forward[k] == Some(cs[0]);
      assert backward[k].Some?;
      assert backward[k].value in Crossings(b, a, rect);
    }
  }

  // ---------------------------------------------------------------------------
  // Cutting an arrow off at its target marker

  /** Segment `(points[i - 1], points[i])` meets the border of `rect`. */
  predicate SegmentMeetsRect(points: seq<Point>, rect: Rect, i: nat)
  {
    0 < i < |points| && LineRectIntersection(points[i - 1], points[i], rect).Some?
  }

  /** The `findLast` step: the last index whose segment (from the point before it)
      meets the rectangle. */
  function LastSegmentMeetingRect(allPoints: seq<Point>, rect: Rect): (r: Option<nat>)
    ensures r.Some? ==> SegmentMeetsRect(allPoints, rect, r.value)
    ensures r.Some? ==> forall j :: r.value < j < |allPoints| ==> !SegmentMeetsRect(allPoints, rect, j)
    ensures r.None? <==> forall i :: 0 <= i < |allPoints| ==> !SegmentMeetsRect(allPoints, rect, i)
  {
    FindLastIndex(allPoints, (pt: Point, i: nat) => SegmentMeetsRect(allPoints, rect, i))
  }

  /** The part geometry.ts and Arrow.tsx share: find the last segment that meets the
      rectangle, and end the polyline where that segment, walked backwards from its
      later end, first meets the border. */
  function TruncateAtRect(allPoints: seq<Point>, rect: Rect): (r: Result<seq<Point>, GeometryError>)
    ensures r.Failure? <==> LastSegmentMeetingRect(allPoints, rect).None?
    ensures r.Failure? ==> r.error == NoIntersection
    ensures r.Success? ==>
      var k := LastSegmentMeetingRect(allPoints, rect).value;
      && |r.value| == k + 1
      && r.value[..k] == allPoints[..k]
      && Some(r.value[k]) == LineRectIntersection(allPoints[k], allPoints[k - 1], rect)
  {
    match LastSegmentMeetingRect(allPoints, rect)
    case None => Failure(NoIntersection)
    case Some(lastIndex) =>
      LineRectIntersectionReversed(allPoints[lastIndex - 1], allPoints[lastIndex], rect);
      var intersection := LineRectIntersection(allPoints[lastIndex], allPoints[lastIndex - 1], rect).value;
      Success(allPoints[..lastIndex] + [intersection])
  }

  /** `r` is `allPoints` cut on its last segment meeting `rect`: it keeps every point
      before that segment and ends on the rectangle's border, on that segment. */
  ghost predicate EndsOnBorder(allPoints: seq<Point>, rect: Rect, r: seq<Point>)
  {
    && 2 <= |r| <= |allPoints|
    && var k := |r| - 1;
    && r[..k] == allPoints[..k]
    && SegmentMeetsRect(allPoints, rect, k)
    && (forall j :: k < j < |allPoints| ==> !SegmentMeetsRect(allPoints, rect, j))
    && IsPointInRect(r[k], rect) && OnBoundary(r[k], rect)
    && OnSegment(r[k], allPoints[k], allPoints[k - 1])
  }

  /** A polyline cut on segment `k`, the last one meeting `rect`, at the point where that
      segment (walked backwards) meets the rectangle ends on its border. */
  lemma CutEndsOnBorder(allPoints: seq<Point>, rect: Rect, r: seq<Point>, k: nat)
    requires SegmentMeetsRect(allPoints, rect, k)
    requires forall j :: k < j < |allPoints| ==> !SegmentMeetsRect(allPoints, rect, j)
    requires |r| == k + 1 && r[..k] == allPoints[..k]
    requires Some(r[k]) == LineRectIntersection(allPoints[k], allPoints[k - 1], rect)
    ensures EndsOnBorder(allPoints, rect, r)
  {
  }

  /** When the polyline is cut it ends on the rectangle's border, on the last segment
      that meets the rectangle, and keeps every point before that segment. */
  lemma TruncateAtRectEndsOnBorder(allPoints: seq<Point>, rect: Rect, r: seq<Point>)
    requires TruncateAtRect(allPoints, rect) == Success(r)
    ensures EndsOnBorder(allPoints, rect, r)
  {
    var k := LastSegmentMeetingRect(allPoints, rect).value;
    CutEndsOnBorder(allPoints, rect, r, k);
  }

  /** `pointArrayForArrow`: the polyline `[fromPoint, ...midPoints, toPoint]`, cut off
      where it enters the target marker. Left whole when there is no target marker or
      no point of it lies in the marker; fails when some point lies in the marker but
      no segment meets the marker's border. */
  function PointArrayForArrow(fromPoint: Point, midPoints: seq<Point>, toPoint: Point, toMarker: Option<Marker>)
    : (r: Result<seq<Point>, GeometryError>)
    ensures var allPoints := AllPoints(fromPoint, midPoints, toPoint);
      && (toMarker.None? ==> r == Success(allPoints))
      && (toMarker.Some? && (forall i :: 0 <= i < |allPoints| ==> !IsPointInRect(allPoints[i], toMarker.value.rect))
          ==> r == Success(allPoints))
      && (r.Failure? <==>
            && toMarker.Some?
            && (exists i :: 0 <= i < |allPoints| && IsPointInRect(allPoints[i], toMarker.value.rect))
            && (forall i :: 0 <= i < |allPoints| ==> !SegmentMeetsRect(allPoints, toMarker.value.rect, i)))
      && (r.Success? ==> 2 <= |r.value| <= |allPoints| && r.value[0] == fromPoint)
  {
    var allPoints := AllPoints(fromPoint, midPoints, toPoint);
    if toMarker.None? || forall i :: 0 <= i < |allPoints| ==> !IsPointInRect(allPoints[i], toMarker.value.rect) then
      Success(allPoints)
    else
      TruncateAtRect(allPoints, toMarker.value.rect)
  }

  /** Once some point lies in the target marker, the arrow is the polyline cut at it. */
  lemma PointArrayForArrowCuts(fromPoint: Point, midPoints: seq<Point>, toPoint: Point, marker: Marker, i: nat)
    requires var allPoints := AllPoints(fromPoint, midPoints, toPoint);
      i < |allPoints| && IsPointInRect(allPoints[i], marker.rect)
    ensures PointArrayForArrow(fromPoint, midPoints, toPoint, Some(marker))
            == TruncateAtRect(AllPoints(fromPoint, midPoints, toPoint), marker.rect)
  {
  }

  /** When the arrow is cut, it keeps the points before the last segment that meets the
      marker and then ends on the marker's border, on that segment. */
  lemma PointArrayForArrowEndsOnMarker(fromPoint: Point, midPoints: seq<Point>, toPoint: Point, marker: Marker)
    requires var allPoints := AllPoints(fromPoint, midPoints, toPoint);
      exists i :: 0 <= i < |allPoints| && IsPointInRect(allPoints[i], marker.rect)
    requires PointArrayForArrow(fromPoint, midPoints, toPoint, Some(marker)).Success?
    ensures EndsOnBorder(AllPoints(fromPoint, midPoints, toPoint), marker.rect,
                         PointArrayForArrow(fromPoint, midPoints, toPoint, Some(marker)).value)
  {
    var allPoints := AllPoints(fromPoint, midPoints, toPoint);
    var i :| 0 <= i < |allPoints| && IsPointInRect(allPoints[i], marker.rect);
    PointArrayForArrowCuts(fromPoint, midPoints, toPoint, marker, i);
    TruncateAtRectEndsOnBorder(allPoints, marker.rect, PointArrayForArrow(fromPoint, midPoints, toPoint, Some(marker)).value);
  }

  lemma MulNonNegative(a: real, b: real)
    requires a >= 0.0 && b >= 0.0
    ensures a * b >= 0.0
  {
  }

  lemma SquareNonNegative(a: real)
    ensures a * a >= 0.0
  {
    if a < 0.0 {
      MulNonNegative(-a, -a);
    } else {
      MulNonNegative(a, a);
    }
  }

  lemma MulPositive(a: real, b: real)
    requires a > 0.0 && b > 0.0
    ensures a * b > 0.0
  {
  }

  /** Betweenness is kept by moving along a segment. */
  lemma StrictlyBetweenAlong(lo: real, hi: real, u: real, v: real, t: real)
    requires lo < u < hi && lo < v < hi && 0.0 <= t <= 1.0
    ensures lo < u + t * (v - u) < hi
  {
    assert u + t * (v - u) - lo == (1.0 - t) * (u - lo) + t * (v - lo);
    assert hi - (u + t * (v - u)) == (1.0 - t) * (hi - u) + t * (hi - v);
    MulNonNegative(1.0 - t, u - lo);
    MulNonNegative(t, v - lo);
    MulNonNegative(1.0 - t, hi - u);
    MulNonNegative(t, hi - v);
    if t < 1.0 {
      MulPositive(1.0 - t, u - lo);
      MulPositive(1.0 - t, hi - u);
    } else {
      MulPositive(t, v - lo);
      MulPositive(t, hi - v);
    }
  }

  /** A point strictly inside the rectangle. */
  predicate StrictlyInside(p: Point, rect: Rect)
  {
    rect.left < p.x < rect.right && rect.top < p.y < rect.bottom
  }

  /** Every point of a segment between two points strictly inside the rectangle is
      strictly inside it, hence off its border. */
  lemma InsideSegmentStaysInside(a: Point, b: Point, rect: Rect, t: real)
    requires StrictlyInside(a, rect) && StrictlyInside(b, rect) && 0.0 <= t <= 1.0
    ensures StrictlyInside(PointAlong(a, b, t), rect)
    ensures !OnBoundary(PointAlong(a, b, t), rect)
  {
    StrictlyBetweenAlong(rect.left, rect.right, a.x, b.x, t);
    StrictlyBetweenAlong(rect.top, rect.bottom, a.y, b.y, t);
  }

  /** A segment between two points strictly inside the rectangle never reaches its border. */
  lemma InsideSegmentMissesBorder(a: Point, b: Point, rect: Rect)
    requires StrictlyInside(a, rect) && StrictlyInside(b, rect)
    ensures LineRectIntersection(a, b, rect).None?
  {
    var cs := Crossings(a, b, rect);
    if cs != [] {
      InsideSegmentStaysInside(a, b, rect, cs[0].t);
      assert false;
    }
  }

  /** geometry.ts throws when the whole arrow lies strictly inside its target marker:
      some point is in the marker, but no segment meets the marker's border. */
  lemma {:induction false} PointArrayForArrowFailsInside(fromPoint: Point, midPoints: seq<Point>, toPoint: Point, marker: Marker)
    requires var allPoints := AllPoints(fromPoint, midPoints, toPoint);
      forall i :: 0 <= i < |allPoints| ==> StrictlyInside(allPoints[i], marker.rect)
    ensures PointArrayForArrow(fromPoint, midPoints, toPoint, Some(marker)) == Failure(NoIntersection)
  {
    var allPoints := AllPoints(fromPoint, midPoints, toPoint);
    assert IsPointInRect(allPoints[0], marker.rect);
    forall i | 0 <= i < |allPoints|
      ensures !SegmentMeetsRect(allPoints, marker.rect, i)
    {
      if 0 < i {
        InsideSegmentMissesBorder(allPoints[i - 1], allPoints[i], marker.rect);
      }
    }
  }

  /** A two-point polyline whose one segment meets the rectangle is cut on that segment,
      where the segment travelled backwards first meets the border. */
  lemma TruncateTwoPoints(a: Point, b: Point, rect: Rect)
    requires LineRectIntersection(a, b, rect).Some?
    ensures LineRectIntersection(b, a, rect).Some?
    ensures TruncateAtRect([a, b], rect) == Success([a, LineRectIntersection(b, a, rect).value])
  {
    LastSegmentOfTwo(a, b, rect);
    LineRectIntersectionReversed(a, b, rect);
    var r := TruncateAtRect([a, b], rect);
    assert r.Success? && |r.value| == 2;
    assert r.value[..1] == [a, b][..1];
    assert r.value[0] == a;
    var hit := LineRectIntersection(b, a, rect).value;
    assert r.value[1] == hit;
    PairOf(r.value);
  }

  lemma PairOf<T>(s: seq<T>)
    requires |s| == 2
    ensures s == [s[0], s[1]]
  {
  }

  /** A two-point polyline whose one segment meets the rectangle is cut on that segment. */
  lemma LastSegmentOfTwo(a: Point, b: Point, rect: Rect)
    requires LineRectIntersection(a, b, rect).Some?
    ensures LastSegmentMeetingRect([a, b], rect) == Some(1)
  {
    assert SegmentMeetsRect([a, b], rect, 1);
  }

  lemma DivBetween(n: real, d: real)
    requires 0.0 < n < d
    ensures 0.0 < n / d < 1.0
  {
    var q := n / d;
    assert q * d == n;
    if q <= 0.0 {
      MulNonNegative(-q, d);
    } else if q >= 1.0 {
      MulNonNegative(q - 1.0, d);
    }
  }

  lemma DivAbove(n: real, d: real)
    requires 0.0 < d < n
    ensures n / d > 1.0
  {
    var q := n / d;
    assert q * d == n;
    if q <= 1.0 {
      MulNonNegative(1.0 - q, d);
    }
  }

  /** When the left edge is the only edge met, it is the only crossing listed. */
  lemma CrossingsOnlyLeft(p1: Point, p2: Point, rect: Rect, c: Crossing)
    requires HorizontalLineIntersection(p1, p2, rect.left, rect.right, rect.top) == None
    requires HorizontalLineIntersection(p1, p2, rect.left, rect.right, rect.bottom) == None
    requires VerticalLineIntersection(p1, p2, rect.left, rect.top, rect.bottom) == Some(c)
    requires VerticalLineIntersection(p1, p2, rect.right, rect.top, rect.bottom) == None
    ensures Crossings(p1, p2, rect) == [c]
  {
    var candidates := [
      HorizontalLineIntersection(p1, p2, rect.left, rect.right, rect.top),
      HorizontalLineIntersection(p1, p2, rect.left, rect.right, rect.bottom),
      VerticalLineIntersection(p1, p2, rect.left, rect.top, rect.bottom),
      VerticalLineIntersection(p1, p2, rect.right, rect.top, rect.bottom)
    ];
    SomesOne(candidates, 2, c);
  }

  /** A horizontal segment meets a vertical edge at the parameter where it reaches the
      edge's x, when that lies within the segment... */
  lemma HorizontalMeetsVertical(p1: Point, p2: Point, x: real, y1: real, y2: real)
    requires p1.y == p2.y && p1.x != p2.x && y1 <= p1.y <= y2
    requires 0.0 <= (x - p1.x) / (p2.x - p1.x) <= 1.0
    ensures VerticalLineIntersection(p1, p2, x, y1, y2) == Some(Crossing((x - p1.x) / (p2.x - p1.x), Point(x, p1.y)))
  {
    var t := (x - p1.x) / (p2.x - p1.x);
    var dy := p2.y - p1.y;
    assert dy == 0.0;
    assert t * dy == 0.0;
    assert IsMonotonous(0.0, t, 1.0) && IsMonotonous(y1, p1.y + t * dy, y2);
  }

  /** ... and misses it otherwise. */
  lemma HorizontalMissesVertical(p1: Point, p2: Point, x: real, y1: real, y2: real)
    requires p1.x != p2.x
    requires !(0.0 <= (x - p1.x) / (p2.x - p1.x) <= 1.0)
    ensures VerticalLineIntersection(p1, p2, x, y1, y2) == None
  {
  }

  /** A horizontal segment entering the rectangle through its left edge crosses only
      that edge, travelled forwards... */
  lemma HorizontalEntryCrossingsForward(x0: real, x1: real, y: real, rect: Rect)
    requires rect.left < rect.right && rect.top < rect.bottom
    requires x0 < rect.left < x1 < rect.right && rect.top < y < rect.bottom
    ensures Crossings(Point(x0, y), Point(x1, y), rect) == [Crossing((rect.left - x0) / (x1 - x0), Point(rect.left, y))]
  {
    var a, b := Point(x0, y), Point(x1, y);
    DivBetween(rect.left - x0, x1 - x0);
    HorizontalMeetsVertical(a, b, rect.left, rect.top, rect.bottom);
    DivAbove(rect.right - x0, x1 - x0);
    HorizontalMissesVertical(a, b, rect.right, rect.top, rect.bottom);
    CrossingsOnlyLeft(a, b, rect, Crossing((rect.left - x0) / (x1 - x0), Point(rect.left, y)));
  }

  /** ... and backwards. */
  lemma HorizontalEntryCrossingsBackward(x0: real, x1: real, y: real, rect: Rect)
    requires rect.left < rect.right && rect.top < rect.bottom
    requires x0 < rect.left < x1 < rect.right && rect.top < y < rect.bottom
    ensures Crossings(Point(x1, y), Point(x0, y), rect) == [Crossing((rect.left - x1) / (x0 - x1), Point(rect.left, y))]
  {
    var a, b := Point(x0, y), Point(x1, y);
    assert (rect.left - x1) / (x0 - x1) == (x1 - rect.left) / (x1 - x0);
    DivBetween(x1 - rect.left, x1 - x0);
    HorizontalMeetsVertical(b, a, rect.left, rect.top, rect.bottom);
    assert (rect.right - x1) / (x0 - x1) == -((rect.right - x1) / (x1 - x0));
    DivBetween(rect.right - x1, rect.right - x0);
    assert (rect.right - x1) / (x1 - x0) > 0.0;
    HorizontalMissesVertical(b, a, rect.right, rect.top, rect.bottom);
    CrossingsOnlyLeft(b, a, rect, Crossing((rect.left - x1) / (x0 - x1), Point(rect.left, y)));
  }

  /** A straight horizontal arrow from outside the target marker to a point inside it
      ends where it crosses the marker's left edge. */
  lemma HorizontalArrowStopsAtLeftEdge(x0: real, x1: real, y: real, marker: Marker)
    requires marker.rect.left < marker.rect.right && marker.rect.top < marker.rect.bottom
    requires x0 < marker.rect.left < x1 < marker.rect.right && marker.rect.top < y < marker.rect.bottom
    ensures PointArrayForArrow(Point(x0, y), [], Point(x1, y), Some(marker))
            == Success([Point(x0, y), Point(marker.rect.left, y)])
  {
    var rect := marker.rect;
    var a, b := Point(x0, y), Point(x1, y);
    var allPoints := AllPoints(a, [], b);
    assert allPoints == [a, b];
    assert IsPointInRect(allPoints[1], rect);
    PointArrayForArrowCuts(a, [], b, marker, 1);
    EntryFromLeftMeetsLeftEdge(x0, x1, y, rect);
    TruncateTwoPoints(a, b, rect);
  }

  /** Both ways along, such a segment meets the rectangle on its left edge. */
  lemma EntryFromLeftMeetsLeftEdge(x0: real, x1: real, y: real, rect: Rect)
    requires rect.left < rect.right && rect.top < rect.bottom
    requires x0 < rect.left < x1 < rect.right && rect.top < y < rect.bottom
    ensures LineRectIntersection(Point(x0, y), Point(x1, y), rect).Some?
    ensures LineRectIntersection(Point(x1, y), Point(x0, y), rect) == Some(Point(rect.left, y))
  {
    var a, b := Point(x0, y), Point(x1, y);
    HorizontalEntryCrossingsForward(x0, x1, y, rect);
    HorizontalEntryCrossingsBackward(x0, x1, y, rect);
    var cs := Crossings(b, a, rect);
    assert MinIndex(cs, (c: Crossing) => c.t) == 0;
  }

  // ---------------------------------------------------------------------------
  // The arrowhead

  /** Where the arrowhead's angle comes from: none when the first and last points are
      less than 40 apart; otherwise from the last point farther than `epsilon` from the
      last point, towards the last point. */
  function ArrowHeading(points: seq<Point>, epsilon: real): (r: Option<Heading>)
    requires |points| > 0 && epsilon >= 0.0
    ensures Distance(points[0], points[|points| - 1]) < 40.0 ==> r.None?
    ensures 0.0 <= epsilon < 40.0 && Distance(points[0], points[|points| - 1]) >= 40.0 ==> r.Some?
    ensures r.Some? ==> r.value.to == points[|points| - 1]
    ensures r.Some? ==>
      exists i :: (0 <= i < |points| - 1 && r.value.from == points[i]
        && Distance(points[i], points[|points| - 1]) > epsilon
        && (forall j :: i < j < |points| ==> Distance(points[j], points[|points| - 1]) <= epsilon))
  {
    var n := |points|;
    if Distance(points[0], points[n - 1]) < 40.0 then None
    else
      var lastPoint := points[n - 1];
      match FindLastIndex(points, (pt: Point, i: nat) => Distance(pt, lastPoint) > epsilon)
      case None => None
      case Some(i) => Some(Heading(points[i], lastPoint))
  }

  /** `arrowAngleForPoints` of geometry.ts, with the 5-unit jitter threshold: there is
      an arrowhead exactly when the first and last points are at least 40 apart. */
  function ArrowAngleForPoints(points: seq<Point>): (r: Option<Heading>)
    requires |points| > 0
    ensures r.None? <==> Distance(points[0], points[|points| - 1]) < 40.0
    ensures r.Some? ==> r.value.to == points[|points| - 1] && Distance(r.value.from, r.value.to) > 5.0
  {
    ArrowHeading(points, 5.0)
  }

  // ---------------------------------------------------------------------------
  // The point of a polyline nearest to a point

  /** `pairs`: each element with its successor. */
  function Pairs<T>(items: seq<T>): (r: seq<(T, T)>)
    ensures |r| == if |items| < 2 then 0 else |items| - 1
    ensures forall i :: 0 <= i < |r| ==> r[i] == (items[i], items[i + 1])
  {
    if |items| < 2 then [] else [(items[0], items[1])] + Pairs(items[1..])
  }

  /** `pointOnLineNearPoint`, without the square root: with v = p2 - p1 and
      dot = (p - p1) . v, the source's `t0 <= 0` is `dot <= 0`, its `t0 >= d` is
      `dot >= |v|^2`, and its interior point is p1 + (dot / |v|^2) v. */
  function PointOnLineNearPoint(p1: Point, p2: Point, p: Point): (r: Point)
    ensures OnSegment(r, p1, p2)
  {
    var dot := Dot(p1, p2, p);
    var lengthSquared := LengthSquared(p1, p2);
    PointAlongEnds(p1, p2);
    if dot <= 0.0 then p1
    else if dot >= lengthSquared then p2
    else PointAlong(p1, p2, dot / lengthSquared)
  }

  /** (p - p1) . (p2 - p1) */
  function Dot(p1: Point, p2: Point, p: Point): real
  {
    (p.x - p1.x) * (p2.x - p1.x) + (p.y - p1.y) * (p2.y - p1.y)
  }

  lemma LengthSquaredNonNegative(p1: Point, p2: Point)
    ensures LengthSquared(p1, p2) >= 0.0
  {
    var dx, dy := p2.x - p1.x, p2.y - p1.y;
    SquareNonNegative(dx);
    SquareNonNegative(dy);
    assert LengthSquared(p1, p2) == dx * dx + dy * dy;
  }

  /** |p2 - p1|^2 */
  function LengthSquared(p1: Point, p2: Point): real
  {
    (p2.x - p1.x) * (p2.x - p1.x) + (p2.y - p1.y) * (p2.y - p1.y)
  }

  function SquaredDistance(a: Point, b: Point): real
  {
    (a.x - b.x) * (a.x - b.x) + (a.y - b.y) * (a.y - b.y)
  }

  /** The squared distance from p to p1 + s (p2 - p1), as a quadratic in s. */
  lemma SquaredDistanceAlong(p1: Point, p2: Point, p: Point, s: real)
    ensures SquaredDistance(p, PointAlong(p1, p2, s))
            == SquaredDistance(p, p1) - 2.0 * s * Dot(p1, p2, p) + s * s * LengthSquared(p1, p2)
  {
    SquaredDistanceAlongExpanded(p1, p2, p, s);
    SumOfSquaresAlong(p.x - p1.x, p2.x - p1.x, p.y - p1.y, p2.y - p1.y, s);
    QuadraticCoefficients(p1, p2, p, s);
  }

  lemma SquaredDistanceAlongExpanded(p1: Point, p2: Point, p: Point, s: real)
    ensures SquaredDistance(p, PointAlong(p1, p2, s))
            == ((p.x - p1.x) - s * (p2.x - p1.x)) * ((p.x - p1.x) - s * (p2.x - p1.x))
             + ((p.y - p1.y) - s * (p2.y - p1.y)) * ((p.y - p1.y) - s * (p2.y - p1.y))
  {
    var q := PointAlong(p1, p2, s);
    assert p.x - q.x == (p.x - p1.x) - s * (p2.x - p1.x);
    assert p.y - q.y == (p.y - p1.y) - s * (p2.y - p1.y);
  }

  lemma QuadraticCoefficients(p1: Point, p2: Point, p: Point, s: real)
    ensures SquaredDistance(p, p1) - 2.0 * s * Dot(p1, p2, p) + s * s * LengthSquared(p1, p2)
            == ((p.x - p1.x) * (p.x - p1.x) + (p.y - p1.y) * (p.y - p1.y))
             - 2.0 * s * ((p.x - p1.x) * (p2.x - p1.x) + (p.y - p1.y) * (p2.y - p1.y))
             + s * s * ((p2.x - p1.x) * (p2.x - p1.x) + (p2.y - p1.y) * (p2.y - p1.y))
  {
  }

  /** |a - s d|^2 = |a|^2 - 2 s (a . d) + s^2 |d|^2, for a = (ax, ay) and d = (dx, dy). */
  lemma SumOfSquaresAlong(ax: real, dx: real, ay: real, dy: real, s: real)
    ensures (ax - s * dx) * (ax - s * dx) + (ay - s * dy) * (ay - s * dy)
            == (ax * ax + ay * ay) - 2.0 * s * (ax * dx + ay * dy) + s * s * (dx * dx + dy * dy)
  {
    SquareAlong(ax, dx, s);
    SquareAlong(ay, dy, s);
    assert 2.0 * s * (ax * dx) + 2.0 * s * (ay * dy) == 2.0 * s * (ax * dx + ay * dy);
    assert s * s * (dx * dx) + s * s * (dy * dy) == s * s * (dx * dx + dy * dy);
  }

  /** One coordinate of the quadratic: (a - s d)^2 = a^2 - 2 s a d + s^2 d^2. */
  lemma SquareAlong(a: real, d: real, s: real)
    ensures (a - s * d) * (a - s * d) == a * a - 2.0 * s * (a * d) + s * s * (d * d)
  {
  }

  // The quadratic  -2 s dot + s^2 len2  on 0 <= s <= 1 is least at the clamped
  // parameter the projection picks.

  lemma QuadraticLeastAtStart(dot: real, len2: real, s: real)
    requires dot <= 0.0 && len2 >= 0.0 && s >= 0.0
    ensures -2.0 * s * dot + s * s * len2 >= 0.0
  {
    MulNonNegative(s, -dot);
    MulNonNegative(s * s, len2);
  }

  lemma QuadraticLeastAtEnd(dot: real, len2: real, s: real)
    requires dot >= len2 >= 0.0 && 0.0 <= s <= 1.0
    ensures -2.0 * s * dot + s * s * len2 >= -2.0 * dot + len2
  {
    assert -2.0 * s * dot + s * s * len2 - (-2.0 * dot + len2) == (1.0 - s) * (2.0 * dot - len2 * (s + 1.0));
    MulNonNegative(len2, 1.0 - s);
    MulNonNegative(1.0 - s, 2.0 * dot - len2 * (s + 1.0));
  }

  lemma QuadraticLeastInside(dot: real, len2: real, s: real)
    requires len2 > 0.0
    ensures -2.0 * s * dot + s * s * len2 >= -2.0 * (dot / len2) * dot + (dot / len2) * (dot / len2) * len2
  {
    var m := dot / len2;
    assert m * len2 == dot;
    assert -2.0 * s * dot + s * s * len2 - (-2.0 * m * dot + m * m * len2)
        == len2 * ((s - m) * (s - m));
    SquareNonNegative(s - m);
    MulNonNegative(len2, (s - m) * (s - m));
  }

  /** The projection is the point of the segment nearest to p in the Euclidean sense. */
  lemma PointOnLineNearPointIsNearest(p1: Point, p2: Point, p: Point, s: real)
    requires 0.0 <= s <= 1.0
    ensures SquaredDistance(p, PointOnLineNearPoint(p1, p2, p)) <= SquaredDistance(p, PointAlong(p1, p2, s))
  {
    var dot := Dot(p1, p2, p);
    var len2 := LengthSquared(p1, p2);
    if dot <= 0.0 {
      NearestAtStart(p1, p2, p, s);
    } else if dot >= len2 {
      NearestAtEnd(p1, p2, p, s);
    } else {
      NearestInside(p1, p2, p, s);
    }
  }

  /** With the projection clamped to p1, no point of the segment is nearer than p1... */
  lemma NearestAtStart(p1: Point, p2: Point, p: Point, s: real)
    requires 0.0 <= s <= 1.0 && Dot(p1, p2, p) <= 0.0
    ensures SquaredDistance(p, p1) <= SquaredDistance(p, PointAlong(p1, p2, s))
  {
    SquaredDistanceAlong(p1, p2, p, s);
    LengthSquaredNonNegative(p1, p2);
    QuadraticLeastAtStart(Dot(p1, p2, p), LengthSquared(p1, p2), s);
  }

  /** ... with it clamped to p2, none is nearer than p2... */
  lemma NearestAtEnd(p1: Point, p2: Point, p: Point, s: real)
    requires 0.0 <= s <= 1.0 && Dot(p1, p2, p) >= LengthSquared(p1, p2)
    ensures SquaredDistance(p, p2) <= SquaredDistance(p, PointAlong(p1, p2, s))
  {
    PointAlongEnds(p1, p2);
    SquaredDistanceAlong(p1, p2, p, s);
    SquaredDistanceAlong(p1, p2, p, 1.0);
    LengthSquaredNonNegative(p1, p2);
    QuadraticLeastAtEnd(Dot(p1, p2, p), LengthSquared(p1, p2), s);
  }

  /** ... and otherwise none is nearer than the foot of the perpendicular. */
  lemma NearestInside(p1: Point, p2: Point, p: Point, s: real)
    requires 0.0 <= s <= 1.0 && 0.0 < Dot(p1, p2, p) < LengthSquared(p1, p2)
    ensures var m := Dot(p1, p2, p) / LengthSquared(p1, p2);
      SquaredDistance(p, PointAlong(p1, p2, m)) <= SquaredDistance(p, PointAlong(p1, p2, s))
  {
    var m := Dot(p1, p2, p) / LengthSquared(p1, p2);
    SquaredDistanceAlong(p1, p2, p, s);
    SquaredDistanceAlong(p1, p2, p, m);
    QuadraticLeastInside(Dot(p1, p2, p), LengthSquared(p1, p2), s);
  }

  /** The projections of p onto each segment of the polyline, in order. */
  function ProjectionsOnSegments(p: Point, polyline: seq<Point>): (r: seq<Point>)
    ensures |r| == if |polyline| < 2 then 0 else |polyline| - 1
    ensures forall i :: 0 <= i < |r| ==> r[i] == PointOnLineNearPoint(polyline[i], polyline[i + 1], p)
  {
    var segments := Pairs(polyline);
    seq(|segments|, i requires 0 <= i < |segments| => PointOnLineNearPoint(segments[i].0, segments[i].1, p))
  }

  /** The segment `pointOnPolylineNearPoint` settles on: the one whose projection of p is
      nearest to p by Chebyshev distance, the first such segment on ties. */
  function NearestSegment(p: Point, polyline: seq<Point>): (i: nat)
    requires |polyline| >= 2
    ensures i < |polyline| - 1
    ensures forall j :: 0 <= j < |polyline| - 1 ==>
      Distance(p, PointOnLineNearPoint(polyline[i], polyline[i + 1], p))
        <= Distance(p, PointOnLineNearPoint(polyline[j], polyline[j + 1], p))
    ensures forall j :: 0 <= j < i ==>
      Distance(p, PointOnLineNearPoint(polyline[i], polyline[i + 1], p))
        < Distance(p, PointOnLineNearPoint(polyline[j], polyline[j + 1], p))
  {
    MinIndex(ProjectionsOnSegments(p, polyline), (q: Point) => Distance(p, q))
  }

  /** `pointOnPolylineNearPoint`: the projection onto the nearest segment; an error for
      fewer than two points. */
  function PointOnPolylineNearPoint(p: Point, polyline: seq<Point>): (r: Result<Point, GeometryError>)
    ensures r.Failure? <==> |polyline| < 2
    ensures r.Failure? ==> r.error == NotEnoughPoints
    ensures r.Success? ==>
      var i := NearestSegment(p, polyline);
      r.value == PointOnLineNearPoint(polyline[i], polyline[i + 1], p)
  {
    var pointsOnSegments := ProjectionsOnSegments(p, polyline);
    if pointsOnSegments == [] then Failure(NotEnoughPoints)
    else Success(pointsOnSegments[MinIndex(pointsOnSegments, (q: Point) => Distance(p, q))])
  }

  /** The point found lies on the polyline. */
  lemma PointOnPolylineNearPointOnPolyline(p: Point, polyline: seq<Point>)
    requires |polyline| >= 2
    ensures var r := PointOnPolylineNearPoint(p, polyline).value;
      exists i :: 0 <= i < |polyline| - 1 && OnSegment(r, polyline[i], polyline[i + 1])
  {
    var i := NearestSegment(p, polyline);
    assert OnSegment(PointOnLineNearPoint(polyline[i], polyline[i + 1], p), polyline[i], polyline[i + 1]);
  }

  /** On a single segment the polyline's nearest point is the segment's projection. */
  lemma SingleSegmentPolyline(p: Point, a: Point, b: Point)
    ensures PointOnPolylineNearPoint(p, [a, b]) == Success(PointOnLineNearPoint(a, b, p))
  {
    assert NearestSegment(p, [a, b]) == 0;
  }

  lemma ScaleBelow(u: real, d: real)
    requires 0.0 < u < d
    ensures 0.0 < u * d < d * d
    ensures (u * d) / (d * d) == u / d
  {
    MulPositive(u, d);
    MulPositive(d - u, d);
    MulPositive(d, d);
    var q := u / d;
    assert q * d == u;
    assert (q * (d * d)) == u * d;
  }

  /** A point beside a horizontal segment, within its span, is projected straight onto it. */
  lemma ProjectionOntoHorizontalSegment(x0: real, x1: real, y: real, p: Point)
    requires x0 < p.x < x1
    ensures PointOnPolylineNearPoint(p, [Point(x0, y), Point(x1, y)]) == Success(Point(p.x, y))
  {
    var a, b := Point(x0, y), Point(x1, y);
    var u, d := p.x - x0, x1 - x0;
    assert (p.y - y) * (y - y) == 0.0;
    assert Dot(a, b, p) == u * d;
    assert LengthSquared(a, b) == d * d;
    ScaleBelow(u, d);
    var m := u / d;
    DivThenMul(u, d);
    assert m * (y - y) == 0.0;
    assert PointAlong(a, b, m) == Point(p.x, y);
    assert PointOnLineNearPoint(a, b, p) == Point(p.x, y);
    SingleSegmentPolyline(p, a, b);
  }

  /** A point before the start of a horizontal segment is projected onto its start. */
  lemma ProjectionClampedToStart(x0: real, x1: real, y: real, p: Point)
    requires p.x <= x0 < x1
    ensures PointOnPolylineNearPoint(p, [Point(x0, y), Point(x1, y)]) == Success(Point(x0, y))
  {
    var a, b := Point(x0, y), Point(x1, y);
    HorizontalDot(x0, x1, y, p);
    MulNonNegative(x0 - p.x, x1 - x0);
    assert Dot(a, b, p) <= 0.0;
    assert PointOnLineNearPoint(a, b, p) == a;
    SingleSegmentPolyline(p, a, b);
  }

  lemma HorizontalDot(x0: real, x1: real, y: real, p: Point)
    ensures Dot(Point(x0, y), Point(x1, y), p) == -((x0 - p.x) * (x1 - x0))
  {
    assert (p.y - y) * (y - y) == 0.0;
  }
}
