/**
 Laws relating the operations of the `FSM` class to one another: undo and
 redo as inverses, what `clearHistory` and `reset` do to them, how a push
 after an undo leaves the cursor behind, and how `changeState`/`trigger`
 agree with the answers of `getStates`.
 */
module HistoryLaws {
  import opened Wrappers
  import opened Config
  import opened Fsm

  /**
   A successful undo is always redoable straight away: the entry undo lands
   on is unmarked, so redo steps back to the original cursor and the state
   recorded there. The history keeps the marker undo cleared.
   */
  lemma UndoThenRedo(m: Machine)
    requires Valid(m)
    requires Undo(m).ok
    ensures var u := Undo(m).next;
            && Redo(u).ok
            && Redo(u).next.cursor == m.cursor
            && Redo(u).next.active == m.history[m.cursor].state
            && Redo(u).next.history == u.history
  {
  }

  /**
   A successful redo is undone exactly: the entry it left was already
   unmarked, so undo restores the cursor and the whole history, and the
   active state becomes the one recorded at the original cursor.
   */
  lemma RedoThenUndo(m: Machine)
    requires Valid(m)
    requires Redo(m).ok
    ensures Undo(Redo(m).next).ok
    ensures Undo(Redo(m).next).next == m.(active := m.history[m.cursor].state)
  {
    var c := m.cursor;
    var n := Redo(m).next;
    var u := Undo(n).next;
    assert m.history[c].(marker := Unmarked) == m.history[c];
    assert u.history == m.history;
  }

  /** While the active state matches the cursor's entry, undo followed by redo returns to the very same instance state. */
  lemma UndoThenRedoRestoresActive(m: Machine)
    requires Valid(m)
    requires Undo(m).ok
    requires m.active == m.history[m.cursor].state
    ensures Redo(Undo(m).next).next.active == m.active
    ensures Redo(Undo(m).next).next.cursor == m.cursor
  {
    UndoThenRedo(m);
  }

  /** After `clearHistory`, neither undo nor redo is available. */
  lemma ClearHistoryBlocksUndoRedo(m: Machine)
    requires Valid(m)
    ensures !Undo(ClearHistory(m)).ok
    ensures !Redo(ClearHistory(m)).ok
  {
  }

  /**
   `reset` changes only the active state, which undo and redo overwrite from
   the history: whether they succeed, and the instance they produce when they
   do, are the same with or without a preceding reset.
   */
  lemma ResetInvisibleToUndoRedo(m: Machine)
    requires Valid(m)
    ensures Undo(Reset(m)).ok == Undo(m).ok
    ensures Undo(m).ok ==> Undo(Reset(m)).next == Undo(m).next
    ensures Redo(Reset(m)).ok == Redo(m).ok
    ensures Redo(m).ok ==> Redo(Reset(m)).next == Redo(m).next
  {
  }

  /**
   Pushing does not truncate: when the cursor is not at the last entry (after
   an undo), a successful `changeState` or `trigger` appends at the end but
   moves the cursor only one step, onto an entry that was already recorded.
   */
  lemma PushAfterUndoLeavesCursorBehind(m: Machine, s: StateId, e: EventId)
    requires Valid(m)
    requires m.cursor < |m.history| - 1
    ensures ChangeState(m, s).Success? ==>
              var n := ChangeState(m, s).value;
              && n.cursor < |n.history| - 1
              && n.history[n.cursor] == m.history[m.cursor + 1]
              && n.history[|n.history| - 1] == Entry(s, Changed)
    ensures Trigger(m, e).Success? ==>
              var n := Trigger(m, e).value;
              && n.cursor < |n.history| - 1
              && n.history[n.cursor] == m.history[m.cursor + 1]
              && n.history[|n.history| - 1] == Entry(n.active, Triggered)
  {
  }

  /** `changeState(s)` throws exactly when `getStates()` does not list `s`. */
  lemma ChangeStateAgreesWithGetStates(m: Machine, s: StateId)
    requires Valid(m)
    ensures ChangeState(m, s).Success? <==> s in GetStates(m, None)
  {
  }

  /** `trigger(e)` succeeds exactly when `getStates(e)` lists the active state. */
  lemma TriggerAgreesWithGetStates(m: Machine, e: EventId)
    requires Valid(m)
    ensures Trigger(m, e).Success? <==> m.active in GetStates(m, Some(e))
  {
  }
}
