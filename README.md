# Annotation tool core, modelled in Dafny

This project models the logic behind the code-reading annotation tool: a page of source code
that readers mark up with coloured markers over spans of text, arrows drawn between markers,
and per-line colour highlights. The model covers five parts of the tool:

- **Arrow geometry** (`Geometry`, `ArrowComponent`, `Util`):
  - where a segment first crosses a marker's rectangle;
  - how an arrow's polyline is cut off at the border of its target marker;
  - which point the arrowhead's angle is taken from;
  - the point of a polyline nearest to the cursor;
  - the `minBy`, `findLast` and `isMonotonous` helpers. `minBy` and `findLast` are methods with loops, proved against the functions `MinIndex` and `FindLastIndex`. The pure geometry uses those functions.
- **The undo/redo wrapper** (`Undoable`). This is a generic reducer transformer. It keeps the past and future snapshots beside the state, most recent first. It is modelled over an arbitrary reducer, slice and spread. The lemmas are proved under the two laws that make a snapshot restore exactly what it was taken from.
- **The annotation reducer** (`Reducer`, `AnnotationStore`):
  - the case reducers: selection, markers, arrows with their dependency sets, line highlights and the straight-arrow setting;
  - the cascade that removes every arrow depending on a removed marker or arrow;
  - the undoable-action classifier and the snapshot projection.
  
  `Reducer.Reduce` is the reducer as a function of the old state. The class `Reducer.Draft` is the mutable draft the case reducers write into. Each of its methods is proved to leave the draft equal to `Reduce` of the old contents. `AnnotationStore` instantiates the wrapper with this reducer and proves the round trips.
- **The drag-to-draw state machines**, one class per hook, with the event point and fresh ids as parameters:
  - `ArrowDrawingProvider` for the current provider;
  - `ArrowDrawingHook`, `ArrowsHook` and `LinesHook` for the three earlier hooks.
  
  `Dragging` holds the waypoint rule they share. Each hook has its own spacing threshold: 10, 5, 3 and 3.
- **GitHub permalinks** (`GitHub`): `parsePath` on a URL's hostname and pathname, and `pathForFile`. `Split` and `Join` model `String.prototype.split` and `Array.prototype.join` on one separator.

Coordinates are Dafny `real`s, so all arithmetic is exact.

Two of the source files do not agree with each other. `lineRectIntersection` and `pointOnPolylineNearPoint` in src/geometry.ts index the result of `minBy` as if it were an `[item, index]` pair: `firstIntersection[0][1]` and `pointOnNearestSegment[0]`. The `minBy` of src/util.ts returns the item itself. The model follows the evident intent: the point of the least-`t` crossing, and the nearest projection itself.

## Model

| member | source | states |
|---|---|---|
| Util.IsMonotonous | src/util.ts:20-22 | holds exactly when b lies between a and c, bounds included, in either order; true when b equals a or c |
| Util.IsMonotonousSymmetric | src/util.ts:20-22 | swapping a and c does not change the answer |
| Util.MinIndex | src/util.ts:6-17 | the chosen index holds a least value, and every earlier index holds a strictly greater one (the first minimum wins) |
| Util.MinBy | src/util.ts:1-18 | the loop returns none for an empty array, otherwise the element at `MinIndex` |
| Util.FindLastIndex | src/util.ts:24-36 | the index found satisfies the predicate and no later index does; none exactly when no index satisfies it |
| Util.FindLast | src/util.ts:24-36 | the downward loop returns the element and index at `FindLastIndex`, or none |
| Util.Filter | src/geometry.ts:64-71 | the kept elements form an order-preserving subsequence of the input; every element in it passes and every passing element is in it |
| Util.FilterCounts | src/geometry.ts:64-71 | each element that passes stays exactly as many times as it occurs in the input, and no copy of any other element stays |
| Util.FilterAppend | src/reducer.ts:114-118 | filtering a concatenation filters each part |
| Util.FilterIdempotent | src/reducer.ts:114-118 | filtering twice is filtering once |
| Types.AllPoints | src/geometry.ts:12 | the polyline is the start point, the waypoints in order, then the end point |
| Geometry.Distance | src/geometry.ts:4-6 | the Chebyshev distance: non-negative, zero exactly for equal points, and equal to the larger of the two coordinate gaps |
| Geometry.DistanceSymmetric | src/geometry.ts:4-6 | the distance is symmetric |
| Geometry.IsPointInRect | src/geometry.ts:162-167 | holds exactly when both coordinates lie within the rectangle's bounds, inclusive and in either order |
| Geometry.HorizontalLineIntersection | src/geometry.ts:81-100 | none for a horizontal segment; any crossing has 0 <= t <= 1, lies at p1 + t(p2 - p1), on the edge's height and within its span |
| Geometry.VerticalLineIntersection | src/geometry.ts:102-121 | none for a vertical segment; any crossing has 0 <= t <= 1, lies at p1 + t(p2 - p1), on the edge's x and within its span |
| Geometry.HorizontalLineIntersectionFinds | src/geometry.ts:92-99 | every point of a non-horizontal segment on the edge within its span is found, with its parameter |
| Geometry.VerticalLineIntersectionFinds | src/geometry.ts:113-120 | every point of a non-vertical segment on the edge within its span is found, with its parameter |
| Geometry.HorizontalLineIntersectionReversed | src/geometry.ts:81-100 | a segment travelled backwards meets the same horizontal edge |
| Geometry.VerticalLineIntersectionReversed | src/geometry.ts:102-121 | a segment travelled backwards meets the same vertical edge |
| Geometry.Crossings | src/geometry.ts:64-71 | every listed candidate lies on the segment with 0 <= t <= 1, on the rectangle's border, and inside the rectangle |
| Geometry.FirstCrossing | src/geometry.ts:73-76 | none exactly when there is no candidate; otherwise a candidate of least t, the earliest in edge order on ties |
| Geometry.LineRectIntersection | src/geometry.ts:59-79 | none exactly when no edge yields a candidate; otherwise a point of the segment that lies on the rectangle's border |
| Geometry.CrossingListed | src/geometry.ts:64-71 | every crossing of a non-parallel edge within its span appears among the candidates |
| Geometry.LineRectIntersectionIsFirst | src/geometry.ts:59-79 | whenever the segment crosses an edge at parameter s, a crossing is found and its t is at most s |
| Geometry.LineRectIntersectionReversed | src/geometry.ts:59-79 | a segment that meets the rectangle still meets it when travelled backwards |
| Geometry.LastSegmentMeetingRect | src/geometry.ts:18-24 | the last index whose segment from the previous point meets the rectangle; none exactly when no segment does |
| Geometry.TruncateAtRect | src/geometry.ts:18-35 | fails exactly when no segment meets the rectangle; otherwise keeps the points before the last such segment and ends with that segment's intersection, computed from its later end back to its earlier end |
| Geometry.TruncateAtRectEndsOnBorder | src/geometry.ts:18-35 | a cut polyline is no longer than the input, keeps its prefix, and ends on the rectangle's border on the last segment meeting it |
| Geometry.CutEndsOnBorder | src/geometry.ts:18-35 | a polyline cut on its last meeting segment at that segment's backwards intersection ends on the rectangle's border, on that segment, with its earlier points kept |
| Geometry.PointArrayForArrow | src/geometry.ts:8-36 | whole polyline with no target marker or no point in it; fails exactly when some point is in the marker but no segment meets its border; a result starts at the start point and is no longer than the polyline |
| Geometry.PointArrayForArrowCuts | src/geometry.ts:14-35 | once any point of the polyline is in the marker, the arrow is the polyline cut at the marker |
| Geometry.PointArrayForArrowEndsOnMarker | src/geometry.ts:18-35 | when some point is in the marker, the arrow is cut on the last segment meeting the marker, at a border point of that segment |
| Geometry.PointArrayForArrowFailsInside | src/geometry.ts:26-28 | an arrow lying strictly inside its target marker fails with the no-intersection error |
| Geometry.InsideSegmentStaysInside | src/geometry.ts:26-28 | every point of a segment between two strictly inside points stays strictly inside, off the border |
| Geometry.TruncateTwoPoints | src/geometry.ts:30-35 | a single meeting segment is cut where it, walked backwards, first meets the border |
| Geometry.HorizontalArrowStopsAtLeftEdge | src/geometry.ts:8-36 | a horizontal arrow entering a marker from the left ends on the marker's left edge |
| Geometry.EntryFromLeftMeetsLeftEdge | src/geometry.ts:59-79 | a horizontal segment entering a rectangle through its left edge meets it, and walked backwards meets it at the left edge |
| Geometry.ArrowHeading | src/geometry.ts:38-57 | none when the ends are under 40 apart; otherwise the angle is taken towards the last point from the last point more than epsilon away from it |
| Geometry.ArrowAngleForPoints | src/geometry.ts:38-57 | with epsilon 5: an arrowhead exactly when the ends are at least 40 apart, taken from a point more than 5 from the last |
| Geometry.Pairs | src/geometry.ts:138-143 | each element paired with its successor, one pair fewer than elements |
| Geometry.PointOnLineNearPoint | src/geometry.ts:145-160 | the projection of p onto the segment, clamped to its ends, lies on the segment |
| Geometry.PointOnLineNearPointIsNearest | src/geometry.ts:145-160 | no point of the segment is closer to p, in Euclidean distance, than the projection |
| Geometry.NearestAtStart | src/geometry.ts:153-154 | when the projection is clamped to the start, no point of the segment is closer to p than the start |
| Geometry.NearestAtEnd | src/geometry.ts:155-156 | when it is clamped to the end, no point of the segment is closer to p than the end |
| Geometry.NearestInside | src/geometry.ts:159 | otherwise no point of the segment is closer to p than the foot of the perpendicular |
| Geometry.ProjectionsOnSegments | src/geometry.ts:124-126 | the i-th entry is the projection onto segment i |
| Geometry.NearestSegment | src/geometry.ts:128-130 | the segment whose projection is nearest to p in Chebyshev distance, and strictly nearer than every earlier segment's |
| Geometry.PointOnPolylineNearPoint | src/geometry.ts:123-136 | fails exactly for fewer than two points; otherwise the projection onto the nearest segment |
| Geometry.PointOnPolylineNearPointOnPolyline | src/geometry.ts:123-136 | the point found lies on one of the polyline's segments |
| Geometry.SingleSegmentPolyline | src/geometry.ts:123-136 | on a single segment the result is that segment's projection |
| Geometry.ProjectionOntoHorizontalSegment | src/geometry.ts:145-160 | a point beside a horizontal segment, within its span, projects straight onto it |
| Geometry.ProjectionClampedToStart | src/geometry.ts:153-154 | a point before a segment's start projects onto the start |
| ArrowComponent.LinePoints | src/Arrow.tsx:73-75 | both ends only in straight mode; otherwise the ends around the waypoints |
| ArrowComponent.PointArrayForLine | src/Arrow.tsx:69-100 | the line's points with no target marker; otherwise fails exactly when no segment meets the marker, and when it succeeds keeps the points before the last segment meeting the marker and ends on the marker's border, on that segment |
| ArrowComponent.StraightLineIgnoresMidPoints | src/Arrow.tsx:73-75 | in straight mode the waypoints make no difference |
| ArrowComponent.MissedMarkerFailsOnlyHere | src/Arrow.tsx:82-92 | a freehand line that misses its marker entirely fails here, while `pointArrayForArrow` returns it whole |
| ArrowComponent.ArrowAngleForPoints | src/Arrow.tsx:49-68 | with epsilon 4: an arrowhead exactly when the ends are at least 40 apart, taken towards the last point |
| Undoable.Reduce | src/undoable.ts:25-73 | no state: the initial state, empty history; undo/redo with nothing to move: unchanged; undo/redo: restores the nearest snapshot and moves the current slice to the other list; any other action: runs the reducer, logs the old slice if the action is logged, and empties the future |
| Undoable.CanUndo | src/undoable.ts:80-82 | `canUndo`: there is a snapshot in the past; `CanUndoIffUndoChanges` states what this means |
| Undoable.CanRedo | src/undoable.ts:83-85 | `canRedo`: there is a snapshot in the future; `CanRedoIffRedoChanges` states what this means |
| Undoable.CanUndoIffUndoChanges | src/undoable.ts:80-82 | `canUndo` holds exactly when an undo changes the state |
| Undoable.CanRedoIffRedoChanges | src/undoable.ts:83-85 | `canRedo` holds exactly when a redo changes the state |
| Undoable.UndoRedoKeepHistoryLength | src/undoable.ts:37-55 | undo and redo keep the combined length of past and future |
| Undoable.UndoThenRedo | src/undoable.ts:31-56 | under the slice/spread laws, undo followed by redo gives back the same history |
| Undoable.RedoThenUndo | src/undoable.ts:31-56 | under the slice/spread laws, redo followed by undo gives back the same history |
| Undoable.UndoTimes | src/undoable.ts:31-43 | with n at most the past's length, n undos drop the n most recent snapshots from the past and push n onto the front of the future, leaving the old future behind them |
| Undoable.RedoTimes | src/undoable.ts:44-56 | with n at most the future's length, n redos drop the first n snapshots of the future and push n onto the front of the past, leaving the old past behind them |
| Undoable.UndoThenRedoTimes | src/undoable.ts:31-56 | n undos followed by n redos, n at most the past's length, give back the same history |
| Undoable.RedoTimesLast | src/undoable.ts:44-56 | n + 1 redos are n redos and one more |
| Undoable.UnloggedActionDropsFuture | src/undoable.ts:57-71 | an action that is not logged keeps the past but leaves nothing to redo |
| Reducer.InitialState | src/reducer.ts:44-52 | a fresh state has no selection, no markers, no arrows and no highlighted line |
| Reducer.MarkersWithout | src/reducer.ts:77-79 | an order-preserving subsequence of the markers; each marker in it has another id, and every marker with another id is in it |
| Reducer.MarkersWithoutCounts | src/reducer.ts:77-79 | every marker with another id stays as many times as it was there; no copy of a marker with the removed id stays |
| Reducer.MarkersWithoutLast | src/reducer.ts:77-79 | filtering out the id of a marker appended last, when no earlier marker has it, gives back the earlier markers |
| Reducer.RemoveArrowsWithDependency | src/reducer.ts:114-118 | an order-preserving subsequence of the arrows; each arrow in it neither is the removed item nor depends on it, and every such arrow is in it |
| Reducer.RemoveArrowsWithDependencyCounts | src/reducer.ts:114-118 | every surviving arrow stays as many times as it was there; no copy of the removed item or of an arrow depending on it stays |
| Reducer.RemoveArrowsWithDependencyIdempotent | src/reducer.ts:114-118 | removing twice is removing once |
| Reducer.RemoveArrowsWithoutDependents | src/reducer.ts:114-118 | a list with nothing depending on the id is unchanged |
| Reducer.RemoveArrowsWithDependencyAppend | src/reducer.ts:114-118 | removing from a concatenation removes from each part |
| Reducer.ToggleAnnotation | src/reducer.ts:98-107 | flips one line's one colour, reading an absent entry as false; every other reading is unchanged |
| Reducer.ToggleTwice | src/reducer.ts:98-107 | toggling the same line and colour twice restores every reading |
| Reducer.Restore | src/undoable.ts:37-39 | laying a snapshot over a state gives a state whose slice is that snapshot, with code, selection and setting kept |
| Reducer.IsUndoableAction | src/reducer.ts:135-145 | `isUndoableAction`: exactly adding and removing markers and arrows and toggling a line highlight; `Reducer.Reduce` states what the classification guarantees |
| Reducer.UndoableSlice | src/reducer.ts:156-163 | `undoableSlice`: markers, arrows, line highlights and palette; `AnnotationStore.StoreLaws` proves that a snapshot laid over a state reads back as itself, and that laying a state's own snapshot back over a restored copy gives the state back |
| Reducer.EmptyAnnotationsAreInitial | src/reducer.ts:147-154 | the empty annotations are those of a fresh state, with no line highlighted |
| Reducer.Reduce | src/reducer.ts:56-111 | actions outside the undoable set never change the snapshot; undoable ones keep the code and the setting; no action changes the palette |
| Reducer.RemoveMarkerCascades | src/reducer.ts:76-82 | the markers become `MarkersWithout` and the arrows `RemoveArrowsWithDependency` of the old lists: no marker with the id remains and every other marker does; no arrow that is the marker or depends on it remains and every other arrow does; both keep their order, the line highlights stay, and the selection is cleared |
| Reducer.RemoveArrowCascades | src/reducer.ts:83-86 | the arrow and its dependents go, markers and line highlights stay, and the selection is cleared |
| Reducer.AddMarkerAppends | src/reducer.ts:87-94 | exactly one marker of the payload and the fresh id is appended, and the selection is cleared |
| Reducer.AddArrowAppends | src/reducer.ts:95-97 | exactly the payload arrow is appended and nothing else changes |
| Reducer.AddThenRemoveMarker | src/reducer.ts:76-94 | adding a marker nothing refers to and then removing it leaves markers and arrows as they were |
| Reducer.Draft.constructor | src/reducer.ts:44-52 | the draft holds the given state |
| Reducer.Draft.SetCode | src/reducer.ts:58-60 | the draft becomes `Reduce` of its old contents under `setCode` |
| Reducer.Draft.SelectText | src/reducer.ts:61-63 | the draft becomes `Reduce` of its old contents under `selectText` |
| Reducer.Draft.SelectMarker | src/reducer.ts:64-66 | the draft becomes `Reduce` of its old contents under `selectMarker` |
| Reducer.Draft.SelectArrow | src/reducer.ts:67-69 | the draft becomes `Reduce` of its old contents under `selectArrow` |
| Reducer.Draft.ClearSelection | src/reducer.ts:70-75 | the draft becomes `Reduce` of its old contents under `clearSelection` |
| Reducer.Draft.RemoveMarker | src/reducer.ts:76-82 | the draft becomes `Reduce` of its old contents under `removeMarker` |
| Reducer.Draft.RemoveArrow | src/reducer.ts:83-86 | the draft becomes `Reduce` of its old contents under `removeArrow` |
| Reducer.Draft.AddMarker | src/reducer.ts:87-94 | the draft becomes `Reduce` of its old contents under `addMarker`, with the given fresh id |
| Reducer.Draft.AddArrow | src/reducer.ts:95-97 | the draft becomes `Reduce` of its old contents under `addArrow` |
| Reducer.Draft.ToggleLineAnnotation | src/reducer.ts:98-107 | the draft becomes `Reduce` of its old contents under `toggleLineAnnotation` |
| Reducer.Draft.SetShowStraightArrows | src/reducer.ts:108-110 | the draft becomes `Reduce` of its old contents under `setShowStraightArrows` |
| AnnotationStore.StoreConfig | src/reducer.ts:135-163 | the wrapper's arguments start from the reducer's initial state |
| AnnotationStore.StoreLaws | src/reducer.ts:156-163 | the snapshot projection and the spread obey the laws: a restored snapshot reads back as itself, and restoring a state's own snapshot changes nothing |
| AnnotationStore.StartsEmpty | src/undoable.ts:26-29 | the store starts from the initial state with nothing to undo or redo |
| AnnotationStore.UndoRestoresOnlySnapshot | src/undoable.ts:31-43 | undo brings back the nearest snapshot; the code, the selection and the setting stay as they are |
| AnnotationStore.UndoThenRedoRestores | src/undoable.ts:31-56 | undo followed by redo gives back the same store state |
| AnnotationStore.UndoRedoTimesRestores | src/undoable.ts:31-56 | n undos followed by n redos give back the same store state |
| AnnotationStore.LoggedActionIsOneUndoStep | src/reducer.ts:135-145 | one undo right after a logged action brings back the annotations from before it |
| AnnotationStore.RemoveMarkerUndoneInOneStep | src/reducer.ts:76-82 | removing a marker, with the arrows that cascade away, is undone by a single undo |
| AnnotationStore.UnloggedActionKeepsAnnotations | src/undoable.ts:57-71 | an action outside the undoable set keeps the past and the annotations |
| AnnotationStore.SelectionAfterUndoDropsRedo | src/undoable.ts:66-70 | a selection made after an undo leaves nothing to redo |
| GitHub.Join | src/github.ts:43 | no pieces join to the empty string and one piece to itself |
| GitHub.Split | src/github.ts:27-28 | at least one piece, none containing the separator, and the pieces join back to the input |
| GitHub.SplitAfterPiece | src/github.ts:27-28 | a separator-free head splits off as the first piece |
| GitHub.SplitJoin | src/github.ts:27-28 | splitting the join of separator-free pieces gives the pieces back |
| GitHub.SplitWithoutSeparator | src/github.ts:27-28 | a string without the separator splits into itself alone |
| GitHub.JoinCons | src/github.ts:43 | a join of several pieces is the head, a separator, and the rest joined |
| GitHub.JoinFlatten | src/github.ts:43 | joining a head with the join of a non-empty rest is joining the head and the rest together |
| GitHub.ParsePath | src/github.ts:19-45 | another hostname fails with that hostname; on github.com it succeeds exactly when the fourth piece is `blob`, something follows the sha and the sha is 5 to 40 hex digits, giving pieces 1, 2, 4 and the rest joined; otherwise it fails with the pathname |
| GitHub.IsHexSha | src/github.ts:33 | the sha pattern: 5 to 40 characters, each a digit or a letter a-f in either case |
| GitHub.PathForFile | src/github.ts:67-69 | `pathForFile`: owner, repository, `blob`, sha and path joined by slashes; `PathForFilePieces` and `ParsePathForFile` state its round trip through `parsePath` |
| GitHub.PathForFilePieces | src/github.ts:67-69 | a slash followed by `pathForFile` is the join of an empty head, owner, repo, `blob`, sha and the path's own pieces |
| GitHub.ParsePathForFile | src/github.ts:19-45 | a file with slash-free owner and repository and a valid sha is parsed back from `"/" + pathForFile` |
| GitHub.PathForParsedFile | src/github.ts:67-69 | a parsed pathname is its ignored head, a slash, and `pathForFile` of the result |
| Dragging.NextMidPoints | src/hooks/useArrowDrawing.tsx:98-106 | one more waypoint, the event point at the end, exactly when drawing freehand beyond the spacing; spacing is preserved |
| Dragging.HoveredMarker | src/hooks/useArrowDrawing.tsx:95 | the hovered marker, unless there is none or it is the drag's origin |
| Dragging.MidPointsAfterMoves | src/hooks/useArrowDrawing.tsx:85-116 | over any run of moves the waypoints only grow at the end and stay spaced; in straight mode none are added |
| ArrowDrawingProvider.DragStartProperties | src/hooks/useArrowDrawing.tsx:194-220 | from a marker: the event point and that marker alone; from an arrow: its nearest point, its origin marker, and its dependencies plus the arrow and that marker; the origin is always a dependency |
| ArrowDrawingProvider.DragFromArrowStartsOnIt | src/hooks/useArrowDrawing.tsx:199-212 | a drag started on an arrow starts on one of its segments |
| ArrowDrawingProvider.StartArrow | src/hooks/useArrowDrawing.tsx:64-83 | the new drag has the start properties, no waypoints, no target, and ends at the event point |
| ArrowDrawingProvider.MovedArrow | src/hooks/useArrowDrawing.tsx:85-116 | a move keeps origin and dependencies, ends at the event point, applies the waypoint rule with spacing 10, and targets the hovered marker unless it is the origin |
| ArrowDrawingProvider.Release | src/hooks/useArrowDrawing.tsx:118-142 | nothing off any marker or on the origin; otherwise an arrow to that marker whose dependencies add that marker, so both ends are dependencies |
| ArrowDrawingProvider.ArrowAfterMoves | src/hooks/useArrowDrawing.tsx:85-116 | any run of moves keeps origin and dependencies |
| ArrowDrawingProvider.CommittedArrowDependsOnBothEnds | src/hooks/useArrowDrawing.tsx:64-142 | after any drag, a committed arrow depends on both of its distinct end markers and its waypoints are spaced |
| ArrowDrawingProvider.DescendantGoesWithAncestor | src/hooks/useArrowDrawing.tsx:199-212 | an arrow drawn from another arrow does not survive the removal of that arrow or of anything it depends on |
| ArrowDrawingProvider.CommittedArrowGoesWithEitherMarker | src/reducer.ts:76-82 | adding a committed arrow and removing either of its end markers removes the arrow |
| ArrowDrawingProvider.ArrowDrawing.constructor | src/hooks/useArrowDrawing.tsx:52-53 | no drag at first |
| ArrowDrawingProvider.ArrowDrawing.OnKeyDown | src/hooks/useArrowDrawing.tsx:57-61 | Escape drops the drag; any other key keeps it |
| ArrowDrawingProvider.ArrowDrawing.OnMouseDown | src/hooks/useArrowDrawing.tsx:64-83 | the drag becomes `StartArrow` |
| ArrowDrawingProvider.ArrowDrawing.OnMouseMove | src/hooks/useArrowDrawing.tsx:85-116 | no drag: nothing changes; otherwise the drag becomes `MovedArrow`, keeping the origin dependency and the spacing |
| ArrowDrawingProvider.ArrowDrawing.OnMouseUp | src/hooks/useArrowDrawing.tsx:118-142 | the drag is cleared, and `addArrow` of `Release` is dispatched when it gives an arrow |
| ArrowDrawingHook.StartDrag | src/hooks/useArrowDrawing.ts:40-59 | starts at the event point; from a marker, depends on it alone; from an arrow, uses its origin marker and depends on the arrow, its dependencies and that marker |
| ArrowDrawingHook.MovedDrag | src/hooks/useArrowDrawing.ts:61-91 | a move keeps origin and dependencies, ends at the event point, applies the waypoint rule with spacing 5, and targets the hovered marker unless it is the origin |
| ArrowDrawingHook.Release | src/hooks/useArrowDrawing.ts:93-117 | nothing off any marker or on the origin; otherwise an arrow to that marker whose dependencies add that marker |
| ArrowDrawingHook.DragAfterMoves | src/hooks/useArrowDrawing.ts:61-91 | any run of moves keeps origin and dependencies |
| ArrowDrawingHook.CommittedArrowDependsOnBothEnds | src/hooks/useArrowDrawing.ts:40-117 | after any drag, a committed arrow depends on both end markers and starts at the mouse-down point |
| ArrowDrawingHook.ArrowDrawing.constructor | src/hooks/useArrowDrawing.ts:36 | no drag at first |
| ArrowDrawingHook.ArrowDrawing.OnMouseDown | src/hooks/useArrowDrawing.ts:40-59 | the drag becomes `StartDrag` |
| ArrowDrawingHook.ArrowDrawing.OnMouseMove | src/hooks/useArrowDrawing.ts:61-91 | no drag: nothing changes; otherwise the drag becomes `MovedDrag` |
| ArrowDrawingHook.ArrowDrawing.OnMouseUp | src/hooks/useArrowDrawing.ts:93-117 | the drag is cleared and the arrow of `Release`, if any, is dispatched |
| ArrowsHook.StartDrag | src/hooks/useArrows.ts:43-62 | from a marker, no dependencies; from an arrow, its origin marker and its dependencies plus its id |
| ArrowsHook.MovedDrag | src/hooks/useArrows.ts:64-94 | a move keeps origin and dependencies, applies the waypoint rule with spacing 3, and targets the hovered marker unless it is the origin |
| ArrowsHook.Commit | src/hooks/useArrows.ts:96-120 | nothing off any marker or on the origin; otherwise an arrow carrying the drag's dependencies unchanged |
| ArrowsHook.ArrowsWithoutMarker | src/hooks/useArrows.ts:122-131 | an order-preserving subsequence; each arrow in it starts and ends at other markers, and every such arrow is in it |
| ArrowsHook.ArrowsWithoutMarkerCounts | src/hooks/useArrows.ts:122-131 | every arrow clear of the marker stays as many times as it was there; no copy of another arrow stays |
| ArrowsHook.ArrowsWithoutArrow | src/hooks/useArrows.ts:133-142 | an order-preserving subsequence; each arrow in it neither is the removed arrow nor depends on it, and every such arrow is in it |
| ArrowsHook.ArrowsWithoutArrowCounts | src/hooks/useArrows.ts:133-142 | every surviving arrow stays as many times as it was there; no copy of the removed arrow or of one drawn from it stays |
| ArrowsHook.MarkerRemovalKeepsDescendant | src/hooks/useArrows.ts:122-131 | removing a marker keeps an arrow drawn from an arrow that ends at that marker |
| ArrowsHook.Arrows.constructor | src/hooks/useArrows.ts:39-41 | no drag, no arrows, straight arrows off |
| ArrowsHook.Arrows.OnMouseDown | src/hooks/useArrows.ts:43-62 | the drag becomes `StartDrag`; the list and setting stay |
| ArrowsHook.Arrows.OnMouseMove | src/hooks/useArrows.ts:64-94 | no drag: nothing changes; otherwise the drag becomes `MovedDrag` |
| ArrowsHook.Arrows.OnMouseUp | src/hooks/useArrows.ts:96-120 | the drag is cleared and the list grows by the committed arrow, if any, at the end |
| ArrowsHook.Arrows.RemoveArrowsWithMarkerId | src/hooks/useArrows.ts:122-131 | the list becomes `ArrowsWithoutMarker` of the old list |
| ArrowsHook.Arrows.RemoveArrowWithId | src/hooks/useArrows.ts:133-142 | the list becomes `ArrowsWithoutArrow` of the old list |
| ArrowsHook.Arrows.SetShowStraightArrows | src/hooks/useArrows.ts:41 | only the setting changes |
| LinesHook.StartLine | src/hooks/useLines.ts:24-37 | starts on the marker at the event point, no waypoints, no target |
| LinesHook.MovedLine | src/hooks/useLines.ts:39-68 | a move keeps the origin, applies the waypoint rule with spacing 3, and targets the hovered marker unless it is the origin |
| LinesHook.Commit | src/hooks/useLines.ts:70-93 | nothing off any marker or on the origin; otherwise a line between two different markers |
| LinesHook.LinesWithoutMarker | src/hooks/useLines.ts:95-104 | an order-preserving subsequence; each line in it starts and ends at other markers, and every such line is in it |
| LinesHook.LinesWithoutMarkerCounts | src/hooks/useLines.ts:95-104 | every line clear of the marker stays as many times as it was there; no copy of another line stays |
| LinesHook.LineAfterMoves | src/hooks/useLines.ts:39-68 | any run of moves keeps the origin |
| LinesHook.StraightLineHasNoWaypoints | src/hooks/useLines.ts:22 | with straight lines on throughout, a committed line has no waypoints |
| LinesHook.Lines.constructor | src/hooks/useLines.ts:20-22 | no drag, no lines, straight lines on |
| LinesHook.Lines.OnMouseDown | src/hooks/useLines.ts:24-37 | the drag becomes `StartLine` |
| LinesHook.Lines.OnMouseMove | src/hooks/useLines.ts:39-68 | no drag: nothing changes; otherwise the drag becomes `MovedLine` |
| LinesHook.Lines.OnMouseUp | src/hooks/useLines.ts:70-93 | the drag is cleared and the list grows by the committed line, if any, at the end |
| LinesHook.Lines.RemoveLinesWithMarkerId | src/hooks/useLines.ts:95-104 | the list becomes `LinesWithoutMarker` of the old list |
| LinesHook.Lines.SetShowStraightLines | src/hooks/useLines.ts:22 | only the setting changes |

## Left out

- React rendering, SVG markup, context providers, DOM listeners and the redux store wiring are not modelled. src/store.ts installs the bare reducer. The wrapped store of `AnnotationStore` is the composition src/undoable.ts and src/reducer.ts are written for.
- Floating point is modelled as exact `real` arithmetic. There is no rounding, no NaN and no infinity.
- `Math.atan2` is kept abstract: the arrowhead is the pair of points (`Heading`) the angle is computed from.
- Geometry.PointOnLineNearPoint: `Math.sqrt` is avoided by comparing the dot product with the squared length, which makes the same decisions. For a zero-length segment the source divides by zero and yields NaN coordinates; the model returns the segment's start.
- Geometry.ArrowHeading: requires a non-negative threshold, which both callers (5 and 4) meet, and a non-empty point list. On an empty array src/geometry.ts:40 reads a coordinate of `undefined` and throws; that error is not modelled. Every caller passes the output of `pointArrayForArrow` or `pointArrayForLine`, which has at least two points.
- Geometry.ArrowAngleForPoints: requires a non-empty point list, for the reason given for `ArrowHeading`.
- ArrowComponent.ArrowAngleForPoints: requires a non-empty point list, for the reason given for `Geometry.ArrowHeading`.
- The intermediate projection of src/geometry.ts:128-130 is Euclidean-nearest on each segment, and the choice between segments is by Chebyshev distance. The model keeps both distances as the source does.
- `range` (imported at src/geometry.ts:2) is not among the source files. It is read as the half-open range `[a, b)`, empty when `b <= a`; `Pairs` is written on that reading.
- `minBy` indexing in src/geometry.ts:78 and 135: as noted above, the model returns the crossing's point and the projection itself. It does not return the `undefined` that indexing the item of the src/util.ts `minBy` would give.
- The `URL` constructor is not modelled. `ParsePath` takes the already-parsed hostname and pathname, with no normalisation or percent-decoding.
- `fetchCode` (src/github.ts:48-65) is network I/O and is not modelled.
- `uuid()` is not modelled: fresh ids are parameters (`AddMarker` carries its id, and the mouse-up handlers take one).
- The sample program text of src/reducer.ts:5-27 is not reproduced: `InitialState` takes the code as a parameter.
- The `document.getSelection()` side effect of `clearSelection` (src/reducer.ts:71-73) is not modelled; only the state change is.
- `reset`, `setMarkerColor` and `setArrowColor` are used by components but not defined in any source file of this model.
- Event coordinates (`pointFromEvent`, src/hooks/useLines.ts:118-124) are not modelled: the handlers take the event point. The straight-arrow setting that src/hooks/useArrowDrawing.tsx and src/hooks/useArrowDrawing.ts read from context is a parameter of their handlers.
- The `Line` and `UnfinishedLine` shapes used by src/hooks/useLines.ts and src/Arrow.tsx are not defined in src/types.ts. `LinesHook` gives them the fields the hook reads and writes. `ArrowComponent` takes those fields as separate parameters.
- The spread of `Marker` over `Rect` in the source is modelled as a marker holding its rectangle (`Marker(rect, id, color)`).
- The palette of src/reducer.ts:50 is `DefaultColors`. No action changes it, so only its preservation is stated.
- Non-undoable actions and the redo list: the code empties `future` on every action other than undo and redo, logged or not (src/undoable.ts:66-70). The model follows the code, so a selection made after an undo discards what could have been redone (`AnnotationStore.SelectionAfterUndoDropsRedo`).
- ArrowsHook.Arrows.RemoveArrowsWithMarkerId looks only at arrow ends. An arrow drawn from an arrow that ends at the removed marker therefore stays, although its parent goes (`ArrowsHook.MarkerRemovalKeepsDescendant`).
- Filter: its own contract does not say how many copies of each element stay. `Util.FilterCounts` proves that, as a separate lemma, so the multiset reasoning stays out of every proof that uses `Filter`.
- MarkersWithout: its own contract does not say how many copies of each marker stay; `Reducer.MarkersWithoutCounts` proves it, for the reason given for `Filter`.
- RemoveArrowsWithDependency: its own contract does not say how many copies of each arrow stay; `Reducer.RemoveArrowsWithDependencyCounts` proves it, for the reason given for `Filter`.
- ArrowsWithoutMarker: its own contract does not say how many copies of each arrow stay; `ArrowsHook.ArrowsWithoutMarkerCounts` proves it, for the reason given for `Filter`.
- ArrowsWithoutArrow: its own contract does not say how many copies of each arrow stay; `ArrowsHook.ArrowsWithoutArrowCounts` proves it, for the reason given for `Filter`.
- LinesWithoutMarker: its own contract does not say how many copies of each line stay; `LinesHook.LinesWithoutMarkerCounts` proves it, for the reason given for `Filter`.
