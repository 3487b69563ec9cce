/**
 A sequence of calls on one instance. Every public method of the class is a
 `Call`; `Exec` performs one, and `Run` performs a whole sequence, with a
 throwing call leaving the instance as it was (the caller catches and goes on).
 */
module Session {
  import opened Wrappers
  import opened Config
  import Fsm

  datatype Call =
    | GetState
    | ChangeState(state: StateId)
    | Trigger(event: EventId)
    | Reset
    | GetStates(filter: Option<EventId>)
    | Undo
    | Redo
    | ClearHistory

  /** What a call hands back to its caller. */
  datatype Reply =
    | Current(state: StateId)
    | StateList(states: seq<StateId>)
    | Flag(ok: bool)
    | Done
    | Threw(error: Fsm.Error)

  datatype Outcome = Outcome(next: Fsm.Machine, reply: Reply)

  /** A call that, when it does not throw, pushes a history entry. */
  predicate Appends(c: Call) {
    c.ChangeState? || c.Trigger?
  }

  function Exec(m: Fsm.Machine, c: Call): (r: Outcome)
    requires Fsm.Valid(m)
    ensures Fsm.Valid(r.next)
    ensures r.next.rules == m.rules
    ensures r.reply.Threw? ==> r.next == m
    ensures r.reply.Threw? ==> Appends(c)
    ensures c.GetState? ==> r == Outcome(m, Current(m.active))
    ensures c.GetStates? ==> r.next == m && r.reply.StateList?
    ensures !c.ClearHistory? ==>
              && |r.next.history| == |m.history| + (if Appends(c) && !r.reply.Threw? then 1 else 0)
              && forall i :: 0 <= i < |m.history| ==> r.next.history[i].state == m.history[i].state
  {
    match c
    case GetState => Outcome(m, Current(Fsm.GetState(m)))
    case ChangeState(s) =>
      (match Fsm.ChangeState(m, s)
       case Success(n) => Outcome(n, Done)
       case Failure(e) => Outcome(m, Threw(e)))
    case Trigger(e) =>
      (match Fsm.Trigger(m, e)
       case Success(n) => Outcome(n, Done)
       case Failure(err) => Outcome(m, Threw(err)))
    case Reset => Outcome(Fsm.Reset(m), Done)
    case GetStates(e) => Outcome(m, StateList(Fsm.GetStates(m, e)))
    case Undo =>
      var s := Fsm.Undo(m);
      Outcome(s.next, Flag(s.ok))
    case Redo =>
      var s := Fsm.Redo(m);
      Outcome(s.next, Flag(s.ok))
    case ClearHistory => Outcome(Fsm.ClearHistory(m), Done)
  }

  /** The instance after performing `calls` in order. */
  function Run(m: Fsm.Machine, calls: seq<Call>): (r: Fsm.Machine)
    requires Fsm.Valid(m)
    ensures Fsm.Valid(r)
    ensures r.rules == m.rules
    ensures r.history[0] == Entry0(m)
    decreases |calls|
  {
    if |calls| == 0 then m else Run(Exec(m, calls[0]).next, calls[1..])
  }

  /** The entry the constructor wrote. */
  function Entry0(m: Fsm.Machine): Fsm.Entry {
    Fsm.Entry(m.rules.initial, Fsm.Unmarked)
  }

  /** How many of `calls`, performed from `m`, push a history entry. */
  function PushCount(m: Fsm.Machine, calls: seq<Call>): nat
    requires Fsm.Valid(m)
    decreases |calls|
  {
    if |calls| == 0 then 0
    else
      var o := Exec(m, calls[0]);
      (if Appends(calls[0]) && !o.reply.Threw? then 1 else 0) + PushCount(o.next, calls[1..])
  }

  predicate ClearFree(calls: seq<Call>) {
    forall k :: 0 <= k < |calls| ==> !calls[k].ClearHistory?
  }

  /**
   Without `clearHistory`, the history only grows: by exactly one entry per
   `changeState`/`trigger` that did not throw, and no recorded state is ever
   replaced (undo only clears markers).
   */
  lemma {:induction false} HistoryOnlyGrows(m: Fsm.Machine, calls: seq<Call>)
    requires Fsm.Valid(m)
    requires ClearFree(calls)
    ensures |Run(m, calls).history| == |m.history| + PushCount(m, calls)
    ensures forall i :: 0 <= i < |m.history| ==> Run(m, calls).history[i].state == m.history[i].state
    decreases |calls|
  {
    if |calls| > 0 {
      var n := Exec(m, calls[0]).next;
      assert ClearFree(calls[1..]) by {
        assert forall k :: 0 <= k < |calls[1..]| ==> calls[1..][k] == calls[k + 1];
      }
      HistoryOnlyGrows(n, calls[1..]);
    }
  }
}
