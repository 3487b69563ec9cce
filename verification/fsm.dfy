/**
 The `FSM` class: one active state, the configuration it was built from, and
 a history of `(state, marker)` entries with a cursor (`currentHistoryIndex`)
 that undo and redo move.

 Each operation is a pure function from the instance before the call to the
 instance after it, together with what the call returns. An operation that
 throws yields `Failure` and the caller keeps the instance unchanged, since
 every throwing branch of the class raises before it writes any field.
 */
module Fsm {
  import opened Wrappers
  import opened Config

  /** The second component of a history entry: `null`, `'s'` (changeState) or `'t'` (trigger). */
  datatype Marker = Unmarked | Changed | Triggered

  datatype Entry = Entry(state: StateId, marker: Marker)

  /** The four fields of an `FSM` instance: `rules`, `activeState`, `history`, `currentHistoryIndex`. */
  datatype Machine = Machine(rules: Config, active: StateId, history: seq<Entry>, cursor: nat)

  /**
   Why a call threw. The class throws bare `Error` objects (and a `TypeError`
   from the `undefined` lookup in `trigger`); the model names the branch.
   */
  datatype Error =
    | NullConfig          // constructor given null or undefined
    | UnknownState        // changeState to a key not in `states`
    | UnknownTransition   // trigger with an event the active state does not declare
    | UndeclaredActive    // trigger while the active state is not a key of `states`

  /** The instance after `undo`/`redo`, and the boolean the call returned. */
  datatype Step = Step(next: Machine, ok: bool)

  /**
   What holds of every instance the class can reach: the table's keys are
   distinct, the history is non-empty with the cursor inside it, and entry 0
   is still the unmarked entry for the initial state the constructor wrote.
   The active state is deliberately NOT tied to the history: `reset` and
   `changeState` after an `undo` leave the two apart.
   */
  predicate Valid(m: Machine) {
    && DistinctIds(m.rules.states)
    && |m.history| >= 1
    && m.cursor < |m.history|
    && m.history[0] == Entry(m.rules.initial, Unmarked)
  }

  /** `n` is `m` with `e` pushed at the end of the history and the cursor moved on by one; nothing already recorded changes. */
  predicate Pushed(m: Machine, n: Machine, e: Entry) {
    && n.rules == m.rules
    && |n.history| == |m.history| + 1
    && (forall i :: 0 <= i < |m.history| ==> n.history[i] == m.history[i])
    && n.history[|m.history|] == e
    && n.cursor == m.cursor + 1
  }

  /** `new FSM(config)`. */
  function New(config: Option<Config>): (r: Result<Machine, Error>)
    requires config.Some? ==> DistinctIds(config.value.states)
    ensures r.Failure? <==> config.None?
    ensures r.Failure? ==> r.error == NullConfig
    ensures r.Success? ==>
              && r.value.rules == config.value
              && r.value.active == config.value.initial
              && r.value.history == [Entry(config.value.initial, Unmarked)]
              && r.value.cursor == 0
    ensures r.Success? ==> Valid(r.value)
  {
    match config
    case None => Failure(NullConfig)
    case Some(c) => Success(Machine(c, c.initial, [Entry(c.initial, Unmarked)], 0))
  }

  /** `getState()`. */
  function GetState(m: Machine): StateId {
    m.active
  }

  /** `changeState(state)`: only a declared state is accepted; the entry is pushed at the end, never truncating. */
  function ChangeState(m: Machine, s: StateId): (r: Result<Machine, Error>)
    requires Valid(m)
    ensures r.Success? <==> Declared(m.rules.states, s)
    ensures r.Failure? ==> r.error == UnknownState
    ensures r.Success? ==> r.value.active == s && Pushed(m, r.value, Entry(s, Changed))
    ensures r.Success? ==> Valid(r.value)
  {
    if Lookup(m.rules.states, s).Some? then
      Success(m.(active := s, history := m.history + [Entry(s, Changed)], cursor := m.cursor + 1))
    else
      Failure(UnknownState)
  }

  /**
   `trigger(event)`: follows the active state's transition for `event`. The
   destination itself is not checked against the table.
   */
  function Trigger(m: Machine, e: EventId): (r: Result<Machine, Error>)
    requires Valid(m)
    ensures r.Success? <==>
              exists i :: 0 <= i < |m.rules.states| && m.rules.states[i].id == m.active
                          && e in m.rules.states[i].transitions
    ensures r == Failure(UndeclaredActive) <==> !Declared(m.rules.states, m.active)
    ensures r.Failure? ==> r.error == UndeclaredActive || r.error == UnknownTransition
    ensures r.Success? ==>
              exists i :: && 0 <= i < |m.rules.states| && m.rules.states[i].id == m.active
                          && e in m.rules.states[i].transitions
                          && var dest := m.rules.states[i].transitions[e];
                             r.value.active == dest && Pushed(m, r.value, Entry(dest, Triggered))
    ensures r.Success? ==> Valid(r.value)
  {
    match Lookup(m.rules.states, m.active)
    case None => Failure(UndeclaredActive)
    case Some(transitions) =>
      if e in transitions then
        var dest := transitions[e];
        assert forall i :: 0 <= i < |m.rules.states| && m.rules.states[i].id == m.active ==>
                             m.rules.states[i].transitions == transitions;
        Success(m.(active := dest, history := m.history + [Entry(dest, Triggered)], cursor := m.cursor + 1))
      else
        Failure(UnknownTransition)
  }

  /** `reset()`: back to the initial state; history and cursor stay as they were. */
  function Reset(m: Machine): (r: Machine)
    requires Valid(m)
    ensures r.active == m.rules.initial
    ensures r.rules == m.rules && r.history == m.history && r.cursor == m.cursor
    ensures Valid(r)
  {
    m.(active := m.rules.initial)
  }

  /**
   `getStates(event)`: with a null event, every declared state; otherwise the
   states whose transitions declare the event. Either way in declaration
   order and each state at most once.
   */
  function GetStates(m: Machine, event: Option<EventId>): (r: seq<StateId>)
    requires Valid(m)
    ensures forall x :: x in r <==>
              exists i :: 0 <= i < |m.rules.states| && m.rules.states[i].id == x
                          && (event.None? || event.value in m.rules.states[i].transitions)
    ensures event.None? ==> |r| == |m.rules.states|
    ensures IsSubsequence(r, Ids(m.rules.states))
    ensures NoDuplicates(r)
  {
    match event
    case None =>
      SubsequenceReflexive(Ids(m.rules.states));
      Ids(m.rules.states)
    case Some(e) =>
      StatesWithTransitionOrdered(m.rules.states, e);
      StatesWithTransitionDistinct(m.rules.states, e);
      StatesWithTransition(m.rules.states, e)
  }

  /**
   `getStates(event)` as the class computes it: the outer pass over the keys,
   pushing each qualifying key unless `arr.indexOf(key)` finds it already.
   The inner loop over the transition keys does not change the result and is
   dropped.
   */
  method GetStatesLoop(m: Machine, event: Option<EventId>) returns (arr: seq<StateId>)
    requires Valid(m)
    ensures arr == GetStates(m, event)
  {
    var t := m.rules.states;
    arr := [];
    var i := 0;
    while i < |t|
      invariant 0 <= i <= |t|
      invariant event.None? ==> arr == Ids(t[..i])
      invariant event.Some? ==> arr == StatesWithTransition(t[..i], event.value)
    {
      assert t[..i + 1][..i] == t[..i];
      // Keys are distinct, so the `indexOf` guard never finds the key already pushed.
      assert event.Some? ==> t[i].id !in arr by {
        assert forall j :: 0 <= j < i ==> t[..i][j].id != t[i].id;
      }
      if event.None? {
        arr := arr + [t[i].id];
      } else if event.value in t[i].transitions && t[i].id !in arr {
        arr := arr + [t[i].id];
      }
      i := i + 1;
    }
    assert t[..i] == t;
  }

  /**
   `undo()`: fails when the history holds one entry or the cursor is at 0;
   otherwise steps the cursor back, makes that entry's state active and
   clears that entry's marker.
   */
  function Undo(m: Machine): (r: Step)
    requires Valid(m)
    ensures r.ok <==> m.cursor > 0
    ensures !r.ok ==> r.next == m
    ensures r.ok ==>
              var c := m.cursor - 1;
              && r.next.rules == m.rules
              && r.next.cursor == c
              && r.next.active == m.history[c].state
              && |r.next.history| == |m.history|
              && r.next.history[c] == Entry(m.history[c].state, Unmarked)
              && (forall i :: 0 <= i < |m.history| && i != c ==> r.next.history[i] == m.history[i])
    ensures Valid(r.next)
  {
    if |m.history| == 1 || m.cursor == 0 then
      Step(m, false)
    else
      var c := m.cursor - 1;
      var h := m.history[c := m.history[c].(marker := Unmarked)];
      Step(m.(cursor := c, active := m.history[c].state, history := h), true)
  }

  /**
   `redo()`: fails when the history holds one entry, the cursor is at the
   last entry, or the entry AT the cursor carries a marker; otherwise steps
   the cursor forward and makes that entry's state active.
   */
  function Redo(m: Machine): (r: Step)
    requires Valid(m)
    ensures r.ok <==> m.cursor < |m.history| - 1 && m.history[m.cursor].marker == Unmarked
    ensures !r.ok ==> r.next == m
    ensures r.ok ==>
              && r.next.rules == m.rules
              && r.next.history == m.history
              && r.next.cursor == m.cursor + 1
              && r.next.active == m.history[m.cursor + 1].state
    ensures Valid(r.next)
  {
    if |m.history| == 1 || m.cursor == |m.history| - 1 || m.history[m.cursor].marker != Unmarked then
      Step(m, false)
    else
      var c := m.cursor + 1;
      Step(m.(cursor := c, active := m.history[c].state), true)
  }

  /** `clearHistory()`: keeps only entry 0, the initial entry, whatever state is active. */
  function ClearHistory(m: Machine): (r: Machine)
    requires Valid(m)
    ensures r.history == [Entry(m.rules.initial, Unmarked)]
    ensures r.cursor == 0
    ensures r.active == m.active && r.rules == m.rules
    ensures Valid(r)
  {
    m.(history := m.history[..1], cursor := 0)
  }
}
