/**
 * The part of the dk.brics.automaton object graph that the Java tools read
 * and write: states with an accept flag and a set of character-range
 * transitions, and an automaton with an initial state. Object identity is
 * modelled by an arena: a state is a handle into the automaton's `info` map,
 * and `states` is the order in which `getStates()` lists them.
 */
module Brics {
  import opened Wrappers

  /** A Java `char`. */
  type Char = c: int | 0 <= c <= 0xFFFF
  const MaxChar: Char := 0xFFFF

  type StateRef = nat

  /** A transition on the characters min..max (both included). */
  datatype Transition = Transition(min: Char, max: Char, dest: StateRef)

  datatype State = State(accept: bool, transitions: seq<Transition>)

  datatype Automaton = Automaton(initial: StateRef, states: seq<StateRef>,
                                 info: map<StateRef, State>, deterministic: bool)

  predicate Distinct(s: seq<StateRef>) {
    forall i, j :: 0 <= i < j < |s| ==> s[i] != s[j]
  }

  /** The facts the library keeps: every listed state exists, once, and every target is listed. */
  ghost predicate Valid(a: Automaton) {
    && Distinct(a.states)
    && a.initial in a.info
    && (forall r :: r in a.info <==> r in a.states)
    && (forall r, i :: r in a.info && 0 <= i < |a.info[r].transitions| ==>
          a.info[r].transitions[i].min <= a.info[r].transitions[i].max
          && a.info[r].transitions[i].dest in a.info)
  }

  /** A handle above every handle in s: where `new State()` lands. */
  function Above(s: seq<StateRef>): (r: StateRef)
    ensures forall i :: 0 <= i < |s| ==> s[i] < r
  {
    if s == [] then 0
    else
      var rest := Above(s[1..]);
      assert forall i :: 1 <= i < |s| ==> s[i] == s[1..][i - 1];
      if s[0] < rest then rest else s[0] + 1
  }

  function Contains(t: Transition, c: int): bool {
    t.min <= c <= t.max
  }

  /** The target of the first transition of s that contains c. */
  function Step(s: State, c: int): (r: Option<StateRef>)
    ensures r.Some? <==> exists i :: 0 <= i < |s.transitions| && Contains(s.transitions[i], c)
    ensures r.Some? ==> exists i :: 0 <= i < |s.transitions| && Contains(s.transitions[i], c)
                                    && r.value == s.transitions[i].dest
    decreases |s.transitions|
  {
    if s.transitions == [] then None
    else if Contains(s.transitions[0], c) then Some(s.transitions[0].dest)
    else
      var r := Step(State(s.accept, s.transitions[1..]), c);
      assert forall i :: 1 <= i < |s.transitions| ==> s.transitions[i] == s.transitions[1..][i - 1];
      r
  }

  /** The state reached from r on w, if every character has a transition. */
  ghost function Run(a: Automaton, r: StateRef, w: seq<int>): Option<StateRef>
    decreases |w|
  {
    if r !in a.info then None
    else if w == [] then Some(r)
    else match Step(a.info[r], w[0]) {
      case None => None
      case Some(next) => Run(a, next, w[1..])
    }
  }

  ghost predicate Accepts(a: Automaton, w: seq<int>) {
    var end := Run(a, a.initial, w);
    end.Some? && end.value in a.info && a.info[end.value].accept
  }

  /** The shape both Java tools build for Σ*: one accepting initial state looping on 0..255. */
  ghost predicate IsSigmaStar(a: Automaton) {
    && a.states == [a.initial]
    && a.info == map[a.initial := State(true, [Transition(0, 255, a.initial)])]
    && a.deterministic
  }

  /** Σ* accepts exactly the strings over the characters 0..255. */
  lemma {:induction false} SigmaStarAccepts(a: Automaton, w: seq<int>)
    requires IsSigmaStar(a)
    ensures Accepts(a, w) <==> forall i :: 0 <= i < |w| ==> 0 <= w[i] <= 255
    decreases |w|
  {
    if w != [] {
      SigmaStarAccepts(a, w[1..]);
      assert forall i :: 1 <= i < |w| ==> w[i] == w[1..][i - 1];
      assert Step(a.info[a.initial], w[0]) == if 0 <= w[0] <= 255 then Some(a.initial) else None;
      if 0 <= w[0] <= 255 {
        assert Run(a, a.initial, w) == Run(a, a.initial, w[1..]);
      }
    }
  }

  lemma SigmaStarValid(a: Automaton)
    requires IsSigmaStar(a)
    ensures Valid(a)
  {
  }
}
