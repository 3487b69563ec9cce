# FSM: a Dafny model of the `FSM` class

The modelled library is a small synchronous state machine, the `FSM` class of
`src/fsm.js`. It is built from a configuration: an `initial` state and a
`states` table that gives each state a `transitions` table (event ->
destination). An instance tracks one active state. It also keeps a history of
`(state, marker)` entries and a cursor into that history
(`currentHistoryIndex`). `undo` and `redo` move the cursor. `reset` and
`clearHistory` rewind parts of the instance.

The model is functional. An instance is the immutable record `Fsm.Machine`,
with fields `rules`, `active`, `history` and `cursor`. Each method of the class
is a pure function from the instance before the call to what the call returns:

- `changeState`/`trigger` return `Result<Machine, Error>`. A call that throws
  gives `Failure`, and the caller keeps the old instance.
- `undo`/`redo` return a `Step`, which holds the next instance and the boolean.

Modules:

- `Wrappers` (`wrappers.dfy`): `Option` and `Result`.
- `Config` (`config.dfy`): the configuration. The `states` table is an ordered
  sequence of `StateDecl(id, transitions)` with distinct ids. It provides key
  lookup, the list of keys, and the filter behind `getStates(event)`.
- `Fsm` (`fsm.dfy`): the instance, its invariant `Valid`, and one function per
  method of the class. `GetStatesLoop` follows the class's own loop for
  `getStates`.
- `Session` (`session.dfy`): every method as a `Call`, `Exec` for one call,
  `Run` for a sequence of calls, and the history-growth law.
- `HistoryLaws` (`history_laws.dfy`): laws relating the operations, such as
  undo/redo inverses, `reset`, `clearHistory`, and agreement with `getStates`.
- `Scenarios` (`scenarios.dfy`): concrete runs on the machine `a --go--> b`.

The class invariant `Fsm.Valid` holds for every reachable instance:

- the table's keys are distinct;
- the history is non-empty;
- `cursor < |history|`;
- entry 0 is `(initial, null)`.

The constructor establishes it, and every operation keeps it. The operations
require it, because the class reads `history[currentHistoryIndex]` without
checking. The invariant deliberately does not say that `active ==
history[cursor].state`. The code does not keep that equality, and it does not
require `initial` or a `trigger` destination to be a declared state.

Points where the code's behaviour may surprise a reader (the model follows
the code):

- `changeState` and `trigger` push at the end of the history and do not
  truncate. After an `undo`, the cursor therefore no longer points at the
  entry just pushed (`HistoryLaws.PushAfterUndoLeavesCursorBehind`).
- `redo` is gated by the marker of the entry AT the cursor, not by the entry
  after it. One undo followed by a push makes redo fail
  (`Scenarios.RedoRefusedAfterPush`). Two undos followed by a push let redo
  move onto an entry recorded before the push
  (`Scenarios.RedoAcceptedOntoOldEntry`).
- `clearHistory` keeps entry 0, the initial entry, rather than an entry for the
  current state. It leaves the active state alone.
- The class throws bare `Error` objects, plus a `TypeError` when `trigger` runs
  while the active state is undeclared. The model names each throwing branch
  (`NullConfig`, `UnknownState`, `UnknownTransition`, `UndeclaredActive`).

## Model

| member | source | states |
|---|---|---|
| Fsm.New | src/fsm.js:6-13 | a null configuration throws; otherwise active state is `initial`, history is exactly `[(initial, null)]`, cursor 0, and the instance satisfies the class invariant |
| Fsm.ChangeState | src/fsm.js:28-34 | succeeds iff the state is a key of `states`; on success the state becomes active and `(state, 's')` is appended after all existing entries, which stay unchanged, with the cursor moved one step; otherwise throws and nothing changes; the invariant is kept |
| Fsm.Trigger | src/fsm.js:40-46 | succeeds iff the active state is declared and its transitions contain the event; the destination taken from that declaration becomes active and `(dest, 't')` is appended with the cursor moved one step; an undeclared active state and a missing event are distinct failures |
| Fsm.Reset | src/fsm.js:51-53 | the active state becomes `initial`; history, cursor and configuration are untouched |
| Fsm.GetStates | src/fsm.js:61-74 | a state is listed iff it is declared and (for a non-null event) its transitions contain the event; the list follows declaration order (a subsequence of the keys), holds no duplicates, and with a null event has one element per declared state |
| Fsm.GetStatesLoop | src/fsm.js:61-74 | the outer pass over the keys with the `indexOf` guard (the redundant inner `key1` loop is dropped, see ## Left out) computes exactly the list `GetStates` specifies |
| Fsm.Undo | src/fsm.js:81-90 | succeeds iff the cursor is above 0; then the cursor steps back, that entry's state becomes active and only that entry's marker is cleared, with length and every other entry unchanged; on refusal nothing changes |
| Fsm.Redo | src/fsm.js:97-107 | succeeds iff the cursor is before the last entry and the entry at the cursor is unmarked; then the cursor steps forward and that entry's state becomes active, with the history untouched; on refusal nothing changes |
| Fsm.ClearHistory | src/fsm.js:112-115 | history becomes the single entry `(initial, null)` and the cursor 0, whatever state is active; the active state and configuration are kept |
| Config.Lookup | src/fsm.js:41 | `states[s]` yields transitions iff `s` is a key, and then the transitions declared for `s` |
| Config.LookupDeclared | src/fsm.js:41-42 | with distinct keys, looking up a declared state yields exactly its own transitions table |
| Config.StatesWithTransition | src/fsm.js:66-71 | a state is reported iff it is declared with a transition for the event |
| Config.StatesWithTransitionOrdered | src/fsm.js:66-71 | the reported states keep declaration order |
| Config.StatesWithTransitionDistinct | src/fsm.js:68-69 | with distinct keys no state is reported twice |
| Config.Ids | src/fsm.js:64 | one key per declaration, in declaration order |
| Config.DistinctIdsIffNoDuplicateIds | src/fsm.js:64 | the keys of `states` are distinct exactly when the key list `getStates()` walks holds no duplicates |
| Session.Exec | src/fsm.js:20-115 | its `GetState` clause is the contract of `getState()` (src/fsm.js:20-22): the reply is the active state and the instance is unchanged; every call keeps the invariant and the configuration; a throwing call changes nothing; `getState`/`getStates` do not mutate; apart from `clearHistory`, a call grows the history by one exactly when it is a `changeState`/`trigger` that did not throw, and no recorded state is replaced |
| Session.Run | src/fsm.js:9-115 | any sequence of calls keeps the invariant, the configuration and entry 0 `(initial, null)` |
| Session.HistoryOnlyGrows | src/fsm.js:31-32 | over calls without `clearHistory`, the history length grows by exactly the number of successful pushes and every recorded state id is kept |
| HistoryLaws.UndoThenRedo | src/fsm.js:85-87 | after a successful undo, redo succeeds, restores the cursor and activates the state recorded there |
| HistoryLaws.RedoThenUndo | src/fsm.js:100-104 | after a successful redo, undo succeeds and restores cursor and history exactly |
| HistoryLaws.UndoThenRedoRestoresActive | src/fsm.js:85-86 | when the active state matches the cursor's entry, undo then redo returns the same active state and cursor |
| HistoryLaws.ClearHistoryBlocksUndoRedo | src/fsm.js:112-115 | after `clearHistory` both undo and redo are refused |
| HistoryLaws.ResetInvisibleToUndoRedo | src/fsm.js:51-53 | a preceding `reset` changes neither whether undo/redo succeed nor the instance they produce |
| HistoryLaws.PushAfterUndoLeavesCursorBehind | src/fsm.js:31-32 | with the cursor before the last entry, a successful push appends at the end but leaves the cursor on an older entry |
| HistoryLaws.ChangeStateAgreesWithGetStates | src/fsm.js:29 | `changeState(s)` succeeds iff `getStates()` lists `s` |
| HistoryLaws.TriggerAgreesWithGetStates | src/fsm.js:41 | `trigger(e)` succeeds iff `getStates(e)` lists the active state |
| Scenarios.DoorBasics | src/fsm.js:6-74 | on `a --go--> b`: null construction throws, `getStates()` is `[a, b]`, `getStates('go')` is `[a]`, `trigger('go')` reaches `b`, and a second `trigger('go')` throws |
| Scenarios.DoorUndoRedo | src/fsm.js:81-107 | `changeState('b')`, then `undo` gives `a` and `redo` gives `b` back; undo at the oldest entry is refused |
| Scenarios.RedoRefusedAfterPush | src/fsm.js:97-101 | one undo followed by a `changeState` makes redo fail |
| Scenarios.RedoAcceptedOntoOldEntry | src/fsm.js:97-105 | two undos followed by a `changeState` let redo succeed onto an entry recorded before the push |

## Left out

- The JavaScript `in` operator also finds inherited keys (`'toString' in {}`). Key membership here is on a plain finite map.
- Key iteration order in JavaScript puts integer-like keys first. The table is an explicitly ordered sequence instead.
- Exception objects and their types are not modelled. A throw is a `Failure` carrying the branch that raised it.
- A configuration without a `states` object, or a state without a `transitions` object, is not modelled: the configuration type always has both. In the class, only `changeState` (src/fsm.js:29) and `trigger` (src/fsm.js:41) throw a `TypeError` on such a configuration. `getStates` does not throw: `for (key in undefined)` runs zero times, so a missing `states` gives `[]` and a state without `transitions` is skipped. `reset`, `undo`, `redo` and `clearHistory` never read the table.
- Identifiers are strings. JavaScript's coercion of non-string keys to strings is not modelled.
- The inner loop over `key1` in `getStates` does not change the result. A state whose transitions contain the event has at least one key, so the loop body runs. Only the observable list is modelled: `GetStatesLoop` has the outer loop and the duplicate guard only.
- `module.exports`, sharing and concurrency are out of scope. The class is single-owner and synchronous.
- `Fsm.GetState` has no contract of its own. It returns the `active` field, and its behaviour is stated by `Session.Exec` (a `GetState` call replies with the active state and changes nothing).
