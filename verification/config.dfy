/**
 The configuration an FSM is built from: an initial state and the `states`
 table, which maps every declared state to its `transitions` table
 (event -> destination state).

 The table is kept as a sequence of declarations in the order their keys are
 iterated, so that "declaration order" has a meaning; the keys of a real
 configuration object are distinct, which `DistinctIds` expresses.
 */
module Config {
  import opened Wrappers

  type StateId = string
  type EventId = string

  /** The `transitions` object of one state: event -> destination. */
  type Transitions = map<EventId, StateId>

  /** One `states` entry: a state identifier and its transitions. */
  datatype StateDecl = StateDecl(id: StateId, transitions: Transitions)

  /** The `states` object, in key-iteration order. */
  type Table = seq<StateDecl>

  datatype Config = Config(initial: StateId, states: Table)

  /** Every key of the `states` object occurs once. */
  predicate DistinctIds(t: Table) {
    forall i, j :: 0 <= i < j < |t| ==> t[i].id != t[j].id
  }

  /** `s in states`: the identifier is a key of the table. */
  predicate Declared(t: Table, s: StateId) {
    exists i :: 0 <= i < |t| && t[i].id == s
  }

  predicate NoDuplicates<T(==)>(s: seq<T>) {
    forall i, j :: 0 <= i < j < |s| ==> s[i] != s[j]
  }

  /** Distinct keys are exactly a key list without duplicates. */
  lemma DistinctIdsIffNoDuplicateIds(t: Table)
    ensures DistinctIds(t) <==> NoDuplicates(Ids(t))
  {
  }

  /** `a` keeps a selection of the elements of `b`, in the same relative order. */
  ghost predicate IsSubsequence<T>(a: seq<T>, b: seq<T>)
    decreases |b|
  {
    || |a| == 0
    || (&& |b| > 0
        && (|| (a[|a| - 1] == b[|b| - 1] && IsSubsequence(a[..|a| - 1], b[..|b| - 1]))
            || IsSubsequence(a, b[..|b| - 1])))
  }

  /** `states[s]`: the transitions of a state, or `None` (JavaScript's `undefined`) for an undeclared one. */
  function Lookup(t: Table, s: StateId): (r: Option<Transitions>)
    ensures r.Some? <==> Declared(t, s)
    ensures r.Some? ==> exists i :: 0 <= i < |t| && t[i].id == s && t[i].transitions == r.value
  {
    if |t| == 0 then None
    else if t[0].id == s then Some(t[0].transitions)
    else
      var r := Lookup(t[1..], s);
      assert Declared(t, s) ==> Declared(t[1..], s) by {
        if Declared(t, s) {
          var i :| 0 <= i < |t| && t[i].id == s;
          assert i > 0 && t[1..][i - 1].id == s;
        }
      }
      r
  }

  /** In a table with distinct keys, the lookup of a declared key yields that declaration's transitions. */
  lemma LookupDeclared(t: Table, i: nat)
    requires DistinctIds(t)
    requires i < |t|
    ensures Lookup(t, t[i].id) == Some(t[i].transitions)
  {
    var r := Lookup(t, t[i].id);
    assert Declared(t, t[i].id);
    var j :| 0 <= j < |t| && t[j].id == t[i].id && t[j].transitions == r.value;
    assert i == j;
  }

  /** The keys of the table, in declaration order: `for (key in states) arr.push(key)`. */
  function Ids(t: Table): (r: seq<StateId>)
    ensures |r| == |t|
    ensures forall i :: 0 <= i < |t| ==> r[i] == t[i].id
  {
    if |t| == 0 then [] else Ids(t[..|t| - 1]) + [t[|t| - 1].id]
  }

  /**
   The states whose transitions declare `e`, in declaration order: the
   filtering loop of `getStates(event)` for a non-null event.
   */
  function StatesWithTransition(t: Table, e: EventId): (r: seq<StateId>)
    ensures forall x :: x in r <==> exists i :: 0 <= i < |t| && t[i].id == x && e in t[i].transitions
  {
    if |t| == 0 then []
    else
      var front := t[..|t| - 1];
      var last := t[|t| - 1];
      assert forall i :: 0 <= i < |front| ==> front[i] == t[i];
      StatesWithTransition(front, e) + if e in last.transitions then [last.id] else []
  }

  /** Appending the same element to both sides keeps a subsequence; so does appending to the longer side only. */
  lemma SubsequenceSnoc<T>(a: seq<T>, b: seq<T>, x: T)
    requires IsSubsequence(a, b)
    ensures IsSubsequence(a + [x], b + [x])
    ensures IsSubsequence(a, b + [x])
  {
    assert (a + [x])[..|a|] == a;
    assert (b + [x])[..|b|] == b;
  }

  /** `getStates(event)` reports states in declaration order: the result is a subsequence of the keys. */
  lemma {:induction false} StatesWithTransitionOrdered(t: Table, e: EventId)
    ensures IsSubsequence(StatesWithTransition(t, e), Ids(t))
    decreases |t|
  {
    if |t| == 0 {
    } else {
      var front := t[..|t| - 1];
      var last := t[|t| - 1];
      StatesWithTransitionOrdered(front, e);
      assert Ids(t) == Ids(front) + [last.id];
      var r0 := StatesWithTransition(front, e);
      SubsequenceSnoc(r0, Ids(front), last.id);
      if e in last.transitions {
        assert StatesWithTransition(t, e) == r0 + [last.id];
      } else {
        assert StatesWithTransition(t, e) == r0;
      }
    }
  }

  /** Every sequence is a subsequence of itself. */
  lemma {:induction false} SubsequenceReflexive<T>(s: seq<T>)
    ensures IsSubsequence(s, s)
    decreases |s|
  {
    if |s| > 0 {
      SubsequenceReflexive(s[..|s| - 1]);
    }
  }

  /** Over a table with distinct keys, no state is reported twice for one event. */
  lemma {:induction false} StatesWithTransitionDistinct(t: Table, e: EventId)
    requires DistinctIds(t)
    ensures NoDuplicates(StatesWithTransition(t, e))
    decreases |t|
  {
    if |t| > 0 {
      var front := t[..|t| - 1];
      var last := t[|t| - 1];
      assert DistinctIds(front);
      StatesWithTransitionDistinct(front, e);
      var r0 := StatesWithTransition(front, e);
      assert forall i :: 0 <= i < |front| ==> front[i].id != last.id;
      assert last.id !in r0;
      if e in last.transitions {
        assert StatesWithTransition(t, e) == r0 + [last.id];
      } else {
        assert StatesWithTransition(t, e) == r0;
      }
    }
  }
}
