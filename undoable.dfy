/** The undo/redo wrapper of src/undoable.ts: a reducer transformer that keeps, beside the
    wrapped state, a most-recent-first list of past snapshots and one of future snapshots.

    A snapshot is the `slice` of a state; `spread(s, p)` stands for the object spread
    `{ ...s, ...p }` that lays a snapshot's fields over a state. */
module Undoable {
  import opened Wrappers

  /** The wrapper's actions: its own `undo` and `redo`, and every action of the wrapped reducer. */
  datatype Action<A> = Undo | Redo | Act(action: A)

  /** The wrapped state with its history; `past[0]` and `future[0]` are the nearest snapshots. */
  datatype History<S, Sl> = History(present: S, past: seq<Sl>, future: seq<Sl>)

  /** The arguments of `undoable`, plus the wrapped reducer's initial state and the spread. */
  datatype Config<!S, !A, !Sl> = Config(
    initialState: S,
    reducer: (S, A) -> S,
    slice: S -> Sl,
    spread: (S, Sl) -> S,
    shouldLogAction: A -> bool)

  /** The instance laws under which a snapshot restores exactly what it was taken from:
      spreading a snapshot and slicing gives the snapshot back, and spreading a state's own
      snapshot over a state that differs from it only in snapshot fields gives it back. */
  ghost predicate SliceSpreadLaws<S(!new), A, Sl(!new)>(cfg: Config<S, A, Sl>)
  {
    && (forall s, p :: cfg.slice(cfg.spread(s, p)) == p)
    && (forall s, p :: cfg.spread(cfg.spread(s, p), cfg.slice(s)) == s)
  }

  /** The reducer `undoable` returns. */
  function Reduce<S, A, Sl>(cfg: Config<S, A, Sl>, state: Option<History<S, Sl>>, action: Action<A>)
    : (r: History<S, Sl>)
    // no state yet: the wrapped reducer's initial state, with no history
    ensures state.None? ==> r.past == [] && r.future == []
    ensures state.None? ==> r.present == match action
                                         case Act(a) => cfg.reducer(cfg.initialState, a)
                                         case _ => cfg.initialState
    // undo and redo with nothing to restore change nothing
    ensures state.Some? && action.Undo? && state.value.past == [] ==> r == state.value
    ensures state.Some? && action.Redo? && state.value.future == [] ==> r == state.value
    // a successful undo moves one snapshot from past to future
    ensures state.Some? && action.Undo? && state.value.past != [] ==>
      var h := state.value;
      && r.present == cfg.spread(h.present, h.past[0])
      && r.past == h.past[1..]
      && r.future == [cfg.slice(h.present)] + h.future
    // a successful redo moves one snapshot from future to past
    ensures state.Some? && action.Redo? && state.value.future != [] ==>
      var h := state.value;
      && r.present == cfg.spread(h.present, h.future[0])
      && r.past == [cfg.slice(h.present)] + h.past
      && r.future == h.future[1..]
    // any other action: logged actions push a snapshot, and the future is always dropped
    ensures state.Some? && action.Act? ==>
      var h := state.value;
      && r.present == cfg.reducer(h.present, action.action)
      && r.past == (if cfg.shouldLogAction(action.action) then [cfg.slice(h.present)] + h.past else h.past)
      && r.future == []
  {
    match state
    case None =>
      var initialState := match action
                          case Act(a) => cfg.reducer(cfg.initialState, a)
                          case _ => cfg.initialState;
      History(initialState, [], [])
    case Some(h) =>
      match action
      case Undo =>
        if h.past == [] then h
        else History(cfg.spread(h.present, h.past[0]), h.past[1..], [cfg.slice(h.present)] + h.future)
      case Redo =>
        if h.future == [] then h
        else History(cfg.spread(h.present, h.future[0]), [cfg.slice(h.present)] + h.past, h.future[1..])
      case Act(a) =>
        var newPast := if cfg.shouldLogAction(a) then [cfg.slice(h.present)] + h.past else h.past;
        History(cfg.reducer(h.present, a), newPast, [])
  }

  /** `canUndo` of `useCanUndoRedo`. */
  predicate CanUndo<S, Sl>(h: History<S, Sl>)
  {
    |h.past| > 0
  }

  /** `canRedo` of `useCanUndoRedo`. */
  predicate CanRedo<S, Sl>(h: History<S, Sl>)
  {
    |h.future| > 0
  }

  /** `canUndo` is exactly "undo would do something". */
  lemma CanUndoIffUndoChanges<S, A, Sl>(cfg: Config<S, A, Sl>, h: History<S, Sl>)
    ensures CanUndo(h) <==> Reduce(cfg, Some(h), Undo) != h
  {
    if CanUndo(h) {
      assert |Reduce(cfg, Some(h), Undo).past| == |h.past| - 1;
    }
  }

  /** `canRedo` is exactly "redo would do something". */
  lemma CanRedoIffRedoChanges<S, A, Sl>(cfg: Config<S, A, Sl>, h: History<S, Sl>)
    ensures CanRedo(h) <==> Reduce(cfg, Some(h), Redo) != h
  {
    if CanRedo(h) {
      assert |Reduce(cfg, Some(h), Redo).future| == |h.future| - 1;
    }
  }

  /** Undo and redo only move snapshots between the two lists. */
  lemma UndoRedoKeepHistoryLength<S, A, Sl>(cfg: Config<S, A, Sl>, h: History<S, Sl>, action: Action<A>)
    requires action.Undo? || action.Redo?
    ensures var r := Reduce(cfg, Some(h), action);
      |r.past| + |r.future| == |h.past| + |h.future|
  {
  }

  /** Under the slice/spread laws, undo followed by redo gives back the very same history. */
  lemma UndoThenRedo<S(!new), A, Sl(!new)>(cfg: Config<S, A, Sl>, h: History<S, Sl>)
    requires SliceSpreadLaws(cfg)
    requires CanUndo(h)
    ensures Reduce(cfg, Some(Reduce(cfg, Some(h), Undo)), Redo) == h
  {
    var u := Reduce(cfg, Some(h), Undo);
    assert cfg.slice(u.present) == h.past[0];
    assert [h.past[0]] + h.past[1..] == h.past;
  }

  /** ... and redo followed by undo likewise. */
  lemma RedoThenUndo<S(!new), A, Sl(!new)>(cfg: Config<S, A, Sl>, h: History<S, Sl>)
    requires SliceSpreadLaws(cfg)
    requires CanRedo(h)
    ensures Reduce(cfg, Some(Reduce(cfg, Some(h), Redo)), Undo) == h
  {
    var u := Reduce(cfg, Some(h), Redo);
    assert cfg.slice(u.present) == h.future[0];
    assert [h.future[0]] + h.future[1..] == h.future;
  }

  /** The history after `n` undos in a row. */
  function UndoTimes<S, A, Sl>(cfg: Config<S, A, Sl>, h: History<S, Sl>, n: nat): (r: History<S, Sl>)
    ensures n <= |h.past| ==> |r.past| == |h.past| - n && |r.future| == |h.future| + n
    ensures n <= |h.past| ==> r.past == h.past[n..] && r.future[n..] == h.future
    decreases n
  {
    if n == 0 then h
    else
      var u := Reduce(cfg, Some(h), Undo);
      var r := UndoTimes(cfg, u, n - 1);
      assert n <= |h.past| ==> u.past[n - 1..] == h.past[n..] && u.future[1..] == h.future;
      r
  }

  /** The history after `n` redos in a row. */
  function RedoTimes<S, A, Sl>(cfg: Config<S, A, Sl>, h: History<S, Sl>, n: nat): (r: History<S, Sl>)
    ensures n <= |h.future| ==> |r.future| == |h.future| - n && |r.past| == |h.past| + n
    ensures n <= |h.future| ==> r.future == h.future[n..] && r.past[n..] == h.past
    decreases n
  {
    if n == 0 then h
    else
      var u := Reduce(cfg, Some(h), Redo);
      var r := RedoTimes(cfg, u, n - 1);
      assert n <= |h.future| ==> u.future[n - 1..] == h.future[n..] && u.past[1..] == h.past;
      r
  }

  /** Undoing n steps and redoing n steps, with n no more than there is to undo, gives
      back the history it started from. */
  lemma {:induction false} UndoThenRedoTimes<S(!new), A, Sl(!new)>(cfg: Config<S, A, Sl>, h: History<S, Sl>, n: nat)
    requires SliceSpreadLaws(cfg)
    requires n <= |h.past|
    ensures RedoTimes(cfg, UndoTimes(cfg, h, n), n) == h
    decreases n
  {
    if n > 0 {
      var u := Reduce(cfg, Some(h), Undo);
      UndoThenRedoTimes(cfg, u, n - 1);
      RedoTimesLast(cfg, UndoTimes(cfg, u, n - 1), n - 1);
      UndoThenRedo(cfg, h);
    }
  }

  /** n redos are n - 1 redos and then one more. */
  lemma {:induction false} RedoTimesLast<S, A, Sl>(cfg: Config<S, A, Sl>, h: History<S, Sl>, n: nat)
    ensures RedoTimes(cfg, h, n + 1) == Reduce(cfg, Some(RedoTimes(cfg, h, n)), Redo)
    decreases n
  {
    if n > 0 {
      RedoTimesLast(cfg, Reduce(cfg, Some(h), Redo), n - 1);
    }
  }

  /** An action that is not logged still drops everything that could have been redone. */
  lemma UnloggedActionDropsFuture<S, A, Sl>(cfg: Config<S, A, Sl>, h: History<S, Sl>, a: A)
    requires !cfg.shouldLogAction(a)
    ensures Reduce(cfg, Some(h), Act(a)).past == h.past
    ensures !CanRedo(Reduce(cfg, Some(h), Act(a)))
  {
  }
}
