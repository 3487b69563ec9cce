/**
 Concrete runs on the two-state machine `a --go--> b`, showing the
 behaviour of the class and two consequences of its history handling:
 redo is refused after one undo and a push, but allowed (onto an old entry)
 after two undos and a push.
 */
module Scenarios {
  import opened Wrappers
  import opened Config
  import Fsm
  import opened Session

  /** `{initial: 'a', states: {a: {transitions: {go: 'b'}}, b: {transitions: {}}}}` */
  function Door(): (c: Config)
    ensures DistinctIds(c.states)
  {
    Config("a", [StateDecl("a", map["go" := "b"]), StateDecl("b", map[])])
  }

  function Start(): (m: Fsm.Machine)
    ensures Fsm.Valid(m)
  {
    Fsm.New(Some(Door())).value
  }

  /** Construction, `getStates` and `trigger` on the two-state machine; a null configuration throws. */
  lemma DoorBasics()
    ensures Fsm.New(None) == Failure(Fsm.NullConfig)
    ensures Fsm.GetState(Start()) == "a"
    ensures Fsm.GetStates(Start(), None) == ["a", "b"]
    ensures Fsm.GetStates(Start(), Some("go")) == ["a"]
    ensures Fsm.GetStates(Start(), Some("missing")) == []
    ensures Fsm.Trigger(Start(), "go").Success?
    ensures Fsm.Trigger(Start(), "go").value.active == "b"
    ensures Fsm.Trigger(Fsm.Trigger(Start(), "go").value, "go") == Failure(Fsm.UnknownTransition)
    ensures Fsm.ChangeState(Start(), "c") == Failure(Fsm.UnknownState)
  {
    var t := Door().states;
    assert t[..1] == [t[0]];
    assert t[..0] == [];
    assert Ids(t) == ["a", "b"];
    assert StatesWithTransition(t, "go") == ["a"];
    assert StatesWithTransition(t, "missing") == [];
  }

  /** `changeState('b')` then `undo()` succeeds and makes `a` active; `redo()` then gives `b` back, while another `undo()` at the oldest entry is refused. */
  lemma DoorUndoRedo()
    ensures var m1 := Run(Start(), [ChangeState("b"), Undo]);
            && Exec(Run(Start(), [ChangeState("b")]), Undo).reply == Flag(true)
            && m1.active == "a"
            && Exec(m1, Redo) == Outcome(m1.(cursor := 1, active := "b"), Flag(true))
            && Exec(m1, Undo) == Outcome(m1, Flag(false))
  {
    var m0 := Start();
    var m1 := Exec(m0, ChangeState("b")).next;
    assert Run(m0, [ChangeState("b")]) == Run(m1, []);
    assert Run(m0, [ChangeState("b"), Undo]) == Run(Exec(m1, Undo).next, []);
  }

  /** One undo, then a `changeState`: redo is refused, since the cursor now sits on a marked entry. */
  lemma RedoRefusedAfterPush()
    ensures Exec(Run(Start(), [ChangeState("b"), Undo, ChangeState("b")]), Redo).reply == Flag(false)
  {
    var m0 := Start();
    var m1 := Exec(m0, ChangeState("b")).next;
    var m2 := Exec(m1, Undo).next;
    var m3 := Exec(m2, ChangeState("b")).next;
    assert Run(m0, [ChangeState("b"), Undo, ChangeState("b")]) == Run(m1, [Undo, ChangeState("b")]);
    assert Run(m1, [Undo, ChangeState("b")]) == Run(m2, [ChangeState("b")]);
    assert Run(m2, [ChangeState("b")]) == Run(m3, []);
  }

  /**
   Two undos, then a `changeState`: the cursor lands on the entry the second
   undo unmarked, so redo is accepted and moves to an entry recorded before
   the push, making `a` active although the last change was to `b`.
   */
  lemma RedoAcceptedOntoOldEntry()
    ensures var m := Run(Start(), [ChangeState("b"), ChangeState("a"), Undo, Undo, ChangeState("b")]);
            && m.active == "b"
            && Exec(m, Redo).reply == Flag(true)
            && Exec(m, Redo).next.active == "a"
  {
    var calls := [ChangeState("b"), ChangeState("a"), Undo, Undo, ChangeState("b")];
    var m0 := Start();
    var m1 := Exec(m0, calls[0]).next;
    var m2 := Exec(m1, calls[1]).next;
    var m3 := Exec(m2, calls[2]).next;
    var m4 := Exec(m3, calls[3]).next;
    var m5 := Exec(m4, calls[4]).next;
    assert calls[1..] == [ChangeState("a"), Undo, Undo, ChangeState("b")];
    assert calls[1..][1..] == [Undo, Undo, ChangeState("b")];
    assert calls[1..][1..][1..] == [Undo, ChangeState("b")];
    assert calls[1..][1..][1..][1..] == [ChangeState("b")];
    assert Run(m4, [ChangeState("b")]) == m5;
    assert Run(m0, calls) == m5;
    assert m5.history == [Fsm.Entry("a", Fsm.Unmarked), Fsm.Entry("b", Fsm.Unmarked),
                          Fsm.Entry("a", Fsm.Changed), Fsm.Entry("b", Fsm.Changed)];
    assert m5.cursor == 1;
  }
}
