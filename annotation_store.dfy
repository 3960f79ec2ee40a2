/** The annotation reducer of src/reducer.ts wrapped by `undoable` of src/undoable.ts, with
    `isUndoableAction` as the logging rule and `undoableSlice` as the snapshot. */
module AnnotationStore {
  import opened Wrappers
  import opened Types
  import opened Reducer
  import U = Undoable

  type StoreState = U.History<State, Snapshot>

  /** The wrapper's arguments for the annotation reducer started on the given code. */
  function StoreConfig(code: string): (cfg: U.Config<State, Action, Snapshot>)
    ensures cfg.initialState == InitialState(code)
  {
    U.Config(InitialState(code), Reduce, UndoableSlice, Restore, IsUndoableAction)
  }

  /** `undoableSlice` and the spread form a lawful pair: a restored snapshot reads back as
      itself, and restoring a state's own snapshot gives the state back. */
  lemma StoreLaws(code: string)
    ensures U.SliceSpreadLaws(StoreConfig(code))
  {
    var cfg := StoreConfig(code);
    forall s, p ensures cfg.spread(cfg.spread(s, p), cfg.slice(s)) == s {
      var q := cfg.spread(cfg.spread(s, p), cfg.slice(s));
      assert UndoableSlice(q) == UndoableSlice(s);
    }
  }

  /** The store starts from the slice's initial state with nothing to undo or redo. */
  lemma StartsEmpty(code: string, action: Action)
    ensures var r := U.Reduce(StoreConfig(code), None, U.Act(action));
      && r.present == Reduce(InitialState(code), action)
      && !U.CanUndo(r) && !U.CanRedo(r)
  {
  }

  /** Undo brings back the nearest snapshot and nothing else: the code, the selection and
      the straight-arrow setting stay as they are. */
  lemma UndoRestoresOnlySnapshot(code: string, h: StoreState)
    requires U.CanUndo(h)
    ensures var r := U.Reduce(StoreConfig(code), Some(h), U.Undo);
      && UndoableSlice(r.present) == h.past[0]
      && r.present.code == h.present.code
      && r.present.currentSelection == h.present.currentSelection
      && r.present.showStraightArrows == h.present.showStraightArrows
  {
  }

  /** Undo followed by redo gives back the same store state. */
  lemma UndoThenRedoRestores(code: string, h: StoreState)
    requires U.CanUndo(h)
    ensures U.Reduce(StoreConfig(code), Some(U.Reduce(StoreConfig(code), Some(h), U.Undo)), U.Redo) == h
  {
    StoreLaws(code);
    U.UndoThenRedo(StoreConfig(code), h);
  }

  /** Undoing n steps and redoing n steps gives back the same store state. */
  lemma UndoRedoTimesRestores(code: string, h: StoreState, n: nat)
    requires n <= |h.past|
    ensures U.RedoTimes(StoreConfig(code), U.UndoTimes(StoreConfig(code), h, n), n) == h
  {
    StoreLaws(code);
    U.UndoThenRedoTimes(StoreConfig(code), h, n);
  }

  /** Every logged action is a single undo step: one undo right after it brings back the
      annotations from before it. */
  lemma LoggedActionIsOneUndoStep(code: string, h: StoreState, action: Action)
    requires IsUndoableAction(action)
    ensures var cfg := StoreConfig(code);
      var after := U.Reduce(cfg, Some(h), U.Act(action));
      && after.past == [UndoableSlice(h.present)] + h.past
      && UndoableSlice(U.Reduce(cfg, Some(after), U.Undo).present) == UndoableSlice(h.present)
      && U.Reduce(cfg, Some(after), U.Undo).past == h.past
  {
  }

  /** Removing a marker together with the arrows depending on it is undone by one undo:
      the marker and those arrows are back. */
  lemma RemoveMarkerUndoneInOneStep(code: string, h: StoreState, marker: Marker)
    ensures var cfg := StoreConfig(code);
      var after := U.Reduce(cfg, Some(h), U.Act(RemoveMarker(marker)));
      var undone := U.Reduce(cfg, Some(after), U.Undo);
      && (forall i :: 0 <= i < |after.present.arrows| ==> marker.id !in after.present.arrows[i].dependencies)
      && undone.present.markers == h.present.markers
      && undone.present.arrows == h.present.arrows
  {
    RemoveMarkerCascades(h.present, marker);
    LoggedActionIsOneUndoStep(code, h, RemoveMarker(marker));
  }

  /** Actions that are not logged leave the history's past and the annotations alone. */
  lemma UnloggedActionKeepsAnnotations(code: string, h: StoreState, action: Action)
    requires !IsUndoableAction(action)
    ensures var r := U.Reduce(StoreConfig(code), Some(h), U.Act(action));
      r.past == h.past && UndoableSlice(r.present) == UndoableSlice(h.present)
  {
  }

  /** A selection made between an undo and a redo drops what could have been redone, since
      the wrapper clears the future on every action it does not handle itself. */
  lemma SelectionAfterUndoDropsRedo(code: string, h: StoreState, rect: Rect)
    requires U.CanUndo(h)
    ensures var cfg := StoreConfig(code);
      var undone := U.Reduce(cfg, Some(h), U.Undo);
      var selected := U.Reduce(cfg, Some(undone), U.Act(SelectText(rect)));
      && U.CanRedo(undone)
      && !U.CanRedo(selected)
      && U.Reduce(cfg, Some(selected), U.Redo) == selected
  {
  }
}
