/** The annotation reducer of src/reducer.ts: markers, arrows with their dependency sets,
    per-line colour toggles, the current selection and two settings.

    `Reduce` is the reducer as a function of the old state; the class `Draft` is the mutable
    draft the case reducers write into, each of its methods proved to leave the draft in the
    state `Reduce` describes. */
module Reducer {
  import opened Wrappers
  import opened Types
  import opened Util

  /** What is currently selected: a text range, a marker, or a point on an arrow. */
  datatype Selection =
    | TextSelection(rect: Rect)
    | MarkerSelection(marker: Marker)
    | ArrowSelection(arrow: Arrow, point: Point)

  /** Line number to colour to "this line is highlighted in this colour". */
  type LineAnnotations = map<int, map<Color, bool>>

  datatype State = State(
    code: string,
    currentSelection: Option<Selection>,
    markers: seq<Marker>,
    arrows: seq<Arrow>,
    lineAnnotations: LineAnnotations,
    colors: seq<Color>,
    showStraightArrows: bool)

  /** The slice's actions. `AddMarker` carries the fresh id the case reducer draws. */
  datatype Action =
    | SetCode(code: string)
    | SelectText(rect: Rect)
    | SelectMarker(marker: Marker)
    | SelectArrow(arrow: Arrow, point: Point)
    | ClearSelection
    | RemoveMarker(marker: Marker)
    | RemoveArrow(arrow: Arrow)
    | AddMarker(rect: Rect, color: Color, id: Id)
    | AddArrow(arrow: Arrow)
    | ToggleLineAnnotation(lineNumber: int, color: Color)
    | SetShowStraightArrows(show: bool)

  /** The part of the state that undo and redo save and restore. */
  datatype Snapshot = Snapshot(
    markers: seq<Marker>,
    arrows: seq<Arrow>,
    lineAnnotations: LineAnnotations,
    colors: seq<Color>)

  /** The annotation fields of the state. */
  datatype Annotations = Annotations(markers: seq<Marker>, arrows: seq<Arrow>, lineAnnotations: LineAnnotations)

  const DefaultColors: seq<Color> := ["lightblue", "lightgreen", "gold", "pink"]

  /** The slice's initial state around a given piece of code. */
  function InitialState(code: string): (r: State)
    ensures r.currentSelection.None? && r.markers == [] && r.arrows == []
    ensures forall line, color :: !IsAnnotated(r.lineAnnotations, line, color)
  {
    State(code, None, [], [], map[], DefaultColors, false)
  }

  // ---------------------------------------------------------------------------
  // Removal

  /** The markers other than the one with the given id, in order. */
  function MarkersWithout(markers: seq<Marker>, id: Id): (r: seq<Marker>)
    ensures Subsequence(r, markers)
    ensures forall i :: 0 <= i < |r| ==> r[i].id != id
    ensures forall i :: 0 <= i < |markers| && markers[i].id != id ==> markers[i] in r
  {
    Filter(markers, (m: Marker) => m.id != id)
  }

  /** Removing a marker keeps every other marker as many times as it was there, and no copy of the removed one. */
  lemma MarkersWithoutCounts(markers: seq<Marker>, id: Id)
    ensures forall m :: multiset(MarkersWithout(markers, id))[m] == if m.id != id then multiset(markers)[m] else 0
  {
    FilterCounts(markers, (m: Marker) => m.id != id);
  }

  /** Whether an arrow survives the removal of the marker or arrow with the given id. */
  predicate Survives(arrow: Arrow, id: Id)
  {
    id !in arrow.dependencies && arrow.id != id
  }

  /** `removeArrowsWithDependency`: the arrows that neither are the removed item nor depend
      on it, in their original order. */
  function RemoveArrowsWithDependency(arrows: seq<Arrow>, id: Id): (r: seq<Arrow>)
    ensures Subsequence(r, arrows)
    ensures forall i :: 0 <= i < |r| ==> r[i].id != id && id !in r[i].dependencies
    ensures forall i :: 0 <= i < |arrows| && Survives(arrows[i], id) ==> arrows[i] in r
  {
    Filter(arrows, (a: Arrow) => Survives(a, id))
  }

  /** The cascade keeps every surviving arrow as many times as it was there, and no copy of any other. */
  lemma RemoveArrowsWithDependencyCounts(arrows: seq<Arrow>, id: Id)
    ensures forall a :: multiset(RemoveArrowsWithDependency(arrows, id))[a] == if Survives(a, id) then multiset(arrows)[a] else 0
  {
    FilterCounts(arrows, (a: Arrow) => Survives(a, id));
  }

  /** Removing twice is removing once. */
  lemma RemoveArrowsWithDependencyIdempotent(arrows: seq<Arrow>, id: Id)
    ensures RemoveArrowsWithDependency(RemoveArrowsWithDependency(arrows, id), id)
            == RemoveArrowsWithDependency(arrows, id)
  {
    FilterIdempotent(arrows, (a: Arrow) => Survives(a, id));
  }

  /** An arrow list with nothing depending on the id is left as it is. */
  lemma RemoveArrowsWithoutDependents(arrows: seq<Arrow>, id: Id)
    requires forall i :: 0 <= i < |arrows| ==> Survives(arrows[i], id)
    ensures RemoveArrowsWithDependency(arrows, id) == arrows
  {
  }

  /** Removing from a concatenation removes from each part. */
  lemma RemoveArrowsWithDependencyAppend(a: seq<Arrow>, b: seq<Arrow>, id: Id)
    ensures RemoveArrowsWithDependency(a + b, id)
            == RemoveArrowsWithDependency(a, id) + RemoveArrowsWithDependency(b, id)
  {
    FilterAppend(a, b, (x: Arrow) => Survives(x, id));
  }

  // ---------------------------------------------------------------------------
  // Line annotations

  /** Whether a line is highlighted in a colour; an absent entry reads as false. */
  predicate IsAnnotated(annotations: LineAnnotations, lineNumber: int, color: Color)
  {
    lineNumber in annotations && color in annotations[lineNumber] && annotations[lineNumber][color]
  }

  /** `toggleLineAnnotation` on the annotation map: flips one line's one colour, creating the
      entries it needs, and leaves every other line and colour as it reads. */
  function ToggleAnnotation(annotations: LineAnnotations, lineNumber: int, color: Color): (r: LineAnnotations)
    ensures IsAnnotated(r, lineNumber, color) == !IsAnnotated(annotations, lineNumber, color)
    ensures forall line, c :: line != lineNumber || c != color ==>
              IsAnnotated(r, line, c) == IsAnnotated(annotations, line, c)
    ensures r.Keys == annotations.Keys + {lineNumber}
  {
    var selectedColors := if lineNumber in annotations then annotations[lineNumber] else map[];
    var wasSelected := if color in selectedColors then selectedColors[color] else false;
    annotations[lineNumber := selectedColors[color := !wasSelected]]
  }

  /** Toggling the same line and colour twice restores every reading of the map. */
  lemma ToggleTwice(annotations: LineAnnotations, lineNumber: int, color: Color, line: int, c: Color)
    ensures IsAnnotated(ToggleAnnotation(ToggleAnnotation(annotations, lineNumber, color), lineNumber, color), line, c)
            == IsAnnotated(annotations, line, c)
  {
  }

  // ---------------------------------------------------------------------------
  // The reducer

  /** `isUndoableAction`: the actions that change annotations. */
  predicate IsUndoableAction(action: Action)
  {
    action.AddMarker? || action.RemoveMarker? || action.AddArrow? || action.RemoveArrow?
    || action.ToggleLineAnnotation?
  }

  /** `undoableSlice`. */
  function UndoableSlice(s: State): Snapshot
  {
    Snapshot(s.markers, s.arrows, s.lineAnnotations, s.colors)
  }

  /** `{ ...s, ...snapshot }`: the snapshot's fields laid over a state. The result carries
      exactly the snapshot and keeps every other field of the state. */
  function Restore(s: State, snapshot: Snapshot): (r: State)
    ensures UndoableSlice(r) == snapshot
    ensures r.code == s.code && r.currentSelection == s.currentSelection
    ensures r.showStraightArrows == s.showStraightArrows
  {
    s.(markers := snapshot.markers, arrows := snapshot.arrows,
       lineAnnotations := snapshot.lineAnnotations, colors := snapshot.colors)
  }

  /** `emptyAnnotations`. */
  const EmptyAnnotations: Annotations := Annotations([], [], map[])

  /** The empty annotations are exactly those a fresh state starts with: no marker, no
      arrow, and no line highlighted in any colour. */
  lemma EmptyAnnotationsAreInitial(code: string)
    ensures var s := InitialState(code);
      EmptyAnnotations == Annotations(s.markers, s.arrows, s.lineAnnotations)
    ensures forall line, color :: !IsAnnotated(EmptyAnnotations.lineAnnotations, line, color)
  {
  }

  /** The reducer of the slice. Actions the classifier does not log never touch the
      snapshot, actions it logs touch nothing else but the selection, and no action
      changes the palette. */
  function Reduce(s: State, action: Action): (r: State)
    ensures !IsUndoableAction(action) ==> UndoableSlice(r) == UndoableSlice(s)
    ensures IsUndoableAction(action) ==>
      r.code == s.code && r.showStraightArrows == s.showStraightArrows
    ensures r.colors == s.colors
  {
    match action
    case SetCode(code) => s.(code := code)
    case SelectText(rect) => s.(currentSelection := Some(TextSelection(rect)))
    case SelectMarker(marker) => s.(currentSelection := Some(MarkerSelection(marker)))
    case SelectArrow(arrow, point) => s.(currentSelection := Some(ArrowSelection(arrow, point)))
    case ClearSelection => s.(currentSelection := None)
    case RemoveMarker(marker) =>
      s.(markers := MarkersWithout(s.markers, marker.id),
         arrows := RemoveArrowsWithDependency(s.arrows, marker.id),
         currentSelection := None)
    case RemoveArrow(arrow) =>
      s.(arrows := RemoveArrowsWithDependency(s.arrows, arrow.id), currentSelection := None)
    case AddMarker(rect, color, id) =>
      s.(markers := s.markers + [Marker(rect, id, color)], currentSelection := None)
    case AddArrow(arrow) => s.(arrows := s.arrows + [arrow])
    case ToggleLineAnnotation(lineNumber, color) =>
      s.(lineAnnotations := ToggleAnnotation(s.lineAnnotations, lineNumber, color))
    case SetShowStraightArrows(show) => s.(showStraightArrows := show)
  }

  /** `removeMarker`: the marker goes, every arrow that is it or depends on it goes, the
      rest stay in order and as many times as they were there, the line annotations stay,
      and the selection is cleared. */
  lemma RemoveMarkerCascades(s: State, marker: Marker)
    ensures var r := Reduce(s, RemoveMarker(marker));
      && r.markers == MarkersWithout(s.markers, marker.id)
      && r.arrows == RemoveArrowsWithDependency(s.arrows, marker.id)
      && (forall i :: 0 <= i < |r.markers| ==> r.markers[i].id != marker.id)
      && (forall i :: 0 <= i < |s.markers| && s.markers[i].id != marker.id ==> s.markers[i] in r.markers)
      && (forall i :: 0 <= i < |r.arrows| ==> Survives(r.arrows[i], marker.id))
      && (forall i :: 0 <= i < |s.arrows| && Survives(s.arrows[i], marker.id) ==> s.arrows[i] in r.arrows)
      && Subsequence(r.markers, s.markers) && Subsequence(r.arrows, s.arrows)
      && r.lineAnnotations == s.lineAnnotations && r.currentSelection.None?
  {
    var r := Reduce(s, RemoveMarker(marker));
    assert r.markers == MarkersWithout(s.markers, marker.id);
    assert r.arrows == RemoveArrowsWithDependency(s.arrows, marker.id);
    assert r.lineAnnotations == s.lineAnnotations && r.currentSelection.None?;
  }

  /** `removeArrow`: the arrow and its dependents go, markers and annotations stay, and the
      selection is cleared. */
  lemma RemoveArrowCascades(s: State, arrow: Arrow)
    ensures var r := Reduce(s, RemoveArrow(arrow));
      && r.arrows == RemoveArrowsWithDependency(s.arrows, arrow.id)
      && (forall i :: 0 <= i < |r.arrows| ==> r.arrows[i].id != arrow.id)
      && r.markers == s.markers && r.lineAnnotations == s.lineAnnotations
      && r.currentSelection.None?
  {
  }

  /** `addMarker`: one new marker at the end, made of the payload, and no selection. */
  lemma AddMarkerAppends(s: State, rect: Rect, color: Color, id: Id)
    ensures var r := Reduce(s, AddMarker(rect, color, id));
      && |r.markers| == |s.markers| + 1 && r.markers[..|s.markers|] == s.markers
      && r.markers[|s.markers|] == Marker(rect, id, color)
      && r.arrows == s.arrows && r.lineAnnotations == s.lineAnnotations
      && r.currentSelection.None?
  {
  }

  /** `addArrow`: the payload arrow at the end and nothing else changed, the selection
      included. */
  lemma AddArrowAppends(s: State, arrow: Arrow)
    ensures var r := Reduce(s, AddArrow(arrow));
      && |r.arrows| == |s.arrows| + 1 && r.arrows[..|s.arrows|] == s.arrows
      && r.arrows[|s.arrows|] == arrow
      && r == s.(arrows := r.arrows)
  {
  }

  /** Removing the id of a marker just appended, which no earlier marker has, gives the
      earlier markers back. */
  lemma {:induction false} MarkersWithoutLast(markers: seq<Marker>, marker: Marker)
    requires forall i :: 0 <= i < |markers| ==> markers[i].id != marker.id
    ensures MarkersWithout(markers + [marker], marker.id) == markers
    decreases |markers|
  {
    var keep := (m: Marker) => m.id != marker.id;
    if markers == [] {
      assert [marker][1..] == [];
      assert Filter([marker], keep) == Filter([], keep);
    } else {
      MarkersWithoutLast(markers[1..], marker);
      assert (markers + [marker])[1..] == markers[1..] + [marker];
      assert [markers[0]] + markers[1..] == markers;
    }
  }

  /** A marker with no arrow leaving or entering it, added and then removed, leaves the
      markers and arrows as they were, provided nothing else had its id. */
  lemma {:induction false} AddThenRemoveMarker(s: State, rect: Rect, color: Color, id: Id)
    requires forall i :: 0 <= i < |s.markers| ==> s.markers[i].id != id
    requires forall i :: 0 <= i < |s.arrows| ==> Survives(s.arrows[i], id)
    ensures var added := Reduce(s, AddMarker(rect, color, id));
      var r := Reduce(added, RemoveMarker(Marker(rect, id, color)));
      r.markers == s.markers && r.arrows == s.arrows
  {
    var marker := Marker(rect, id, color);
    var added := s.(markers := s.markers + [marker], currentSelection := None);
    assert Reduce(s, AddMarker(rect, color, id)) == added;
    MarkersWithoutLast(s.markers, marker);
    RemoveArrowsWithoutDependents(s.arrows, id);
    assert Reduce(added, RemoveMarker(marker)).markers == s.markers;
  }

  // ---------------------------------------------------------------------------
  // The draft

  /** The mutable draft state the case reducers write into. */
  class Draft {
    var code: string
    var currentSelection: Option<Selection>
    var markers: seq<Marker>
    var arrows: seq<Arrow>
    var lineAnnotations: LineAnnotations
    var colors: seq<Color>
    var showStraightArrows: bool

    /** The draft's contents as a state value. */
    function Current(): State
      reads this
    {
      State(code, currentSelection, markers, arrows, lineAnnotations, colors, showStraightArrows)
    }

    constructor (s: State)
      ensures Current() == s
    {
      code := s.code;
      currentSelection := s.currentSelection;
      markers := s.markers;
      arrows := s.arrows;
      lineAnnotations := s.lineAnnotations;
      colors := s.colors;
      showStraightArrows := s.showStraightArrows;
    }

    method SetCode(newCode: string)
      modifies this
      ensures Current() == Reduce(old(Current()), Action.SetCode(newCode))
    {
      code := newCode;
    }

    method SelectText(rect: Rect)
      modifies this
      ensures Current() == Reduce(old(Current()), Action.SelectText(rect))
    {
      currentSelection := Some(TextSelection(rect));
    }

    method SelectMarker(marker: Marker)
      modifies this
      ensures Current() == Reduce(old(Current()), Action.SelectMarker(marker))
    {
      currentSelection := Some(MarkerSelection(marker));
    }

    method SelectArrow(arrow: Arrow, point: Point)
      modifies this
      ensures Current() == Reduce(old(Current()), Action.SelectArrow(arrow, point))
    {
      currentSelection := Some(ArrowSelection(arrow, point));
    }

    method ClearSelection()
      modifies this
      ensures Current() == Reduce(old(Current()), Action.ClearSelection)
    {
      currentSelection := None;
    }

    method RemoveMarker(marker: Marker)
      modifies this
      ensures Current() == Reduce(old(Current()), Action.RemoveMarker(marker))
    {
      var remainingMarkers := MarkersWithout(markers, marker.id);
      var remainingArrows := RemoveArrowsWithDependency(arrows, marker.id);
      markers, arrows, currentSelection := remainingMarkers, remainingArrows, None;
    }

    method RemoveArrow(arrow: Arrow)
      modifies this
      ensures Current() == Reduce(old(Current()), Action.RemoveArrow(arrow))
    {
      arrows := RemoveArrowsWithDependency(arrows, arrow.id);
      currentSelection := None;
    }

    /** `id` is the fresh id the source draws from `uuid()`. */
    method AddMarker(rect: Rect, color: Color, id: Id)
      modifies this
      ensures Current() == Reduce(old(Current()), Action.AddMarker(rect, color, id))
    {
      markers := markers + [Marker(rect, id, color)];
      currentSelection := None;
    }

    method AddArrow(arrow: Arrow)
      modifies this
      ensures Current() == Reduce(old(Current()), Action.AddArrow(arrow))
    {
      arrows := arrows + [arrow];
    }

    method ToggleLineAnnotation(lineNumber: int, color: Color)
      modifies this
      ensures Current() == Reduce(old(Current()), Action.ToggleLineAnnotation(lineNumber, color))
    {
      var selectedColors := if lineNumber in lineAnnotations then lineAnnotations[lineNumber] else map[];
      var wasSelected := if color in selectedColors then selectedColors[color] else false;
      selectedColors := selectedColors[color := !wasSelected];
      lineAnnotations := lineAnnotations[lineNumber := selectedColors];
    }

    method SetShowStraightArrows(show: bool)
      modifies this
      ensures Current() == Reduce(old(Current()), Action.SetShowStraightArrows(show))
    {
      showStraightArrows := show;
    }
  }
}
