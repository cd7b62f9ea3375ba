/**
 * RegexDfaDemo: the Σ* automaton and `completeDfa`, which routes every
 * character of 0..255 that a state does not handle to a fresh non-accepting
 * garbage state.
 */
module RegexDfaDemo {
  import opened Brics
  import Sorting

  /** `createSigmaStarAutomaton`: a fresh state, made accepting, given a 0..255 self-loop. */
  method CreateSigmaStarAutomaton() returns (a: Automaton)
    ensures IsSigmaStar(a)
  {
    var state: StateRef := 0;
    var s := State(false, []);
    s := s.(accept := true);
    s := s.(transitions := s.transitions + [Transition(0, 255, state)]);
    assert s == State(true, [Transition(0, 255, state)]);
    a := Automaton(state, [state], map[state := s], false);
    a := a.(deterministic := true);
  }

  function MinOf(t: Transition): int {
    t.min
  }

  /** The gap after the last transition, when the cursor is still within 0..255. */
  function Trailing(cur: Char, g: StateRef): seq<Transition> {
    if cur <= 255 then [Transition(cur, 255, g)] else []
  }

  /**
   * The transitions to g that the gap scan adds for ts (already sorted by
   * min), starting at cursor cur: a gap before each transition that starts
   * above the cursor, the cursor then moving past the transition, and a
   * trailing gap up to 255. A transition that ends at the last char leaves
   * nothing to fill.
   */
  function Gaps(ts: seq<Transition>, cur: Char, g: StateRef): seq<Transition>
    decreases |ts|
  {
    if ts == [] then Trailing(cur, g)
    else
      var t := ts[0];
      var gap := GapBefore(cur, t, g);
      if t.max == MaxChar then gap
      else gap + Gaps(ts[1..], t.max + 1, g)
  }

  /**
   * The scan as the Java loop is written: the cursor `(char)(t.getMax() + 1)`
   * wraps to 0 after a transition ending at the last char, the loop breaks,
   * and the trailing check `currentChar <= 255` then holds for the wrapped 0.
   */
  function GapsAsWritten(ts: seq<Transition>, cur: Char, g: StateRef): seq<Transition>
    decreases |ts|
  {
    if ts == [] then Trailing(cur, g)
    else
      var t := ts[0];
      var gap := GapBefore(cur, t, g);
      if t.max == MaxChar then gap + Trailing(0, g)
      else gap + GapsAsWritten(ts[1..], t.max + 1, g)
  }

  /** The gaps `completeDfa` adds to one state. */
  function StateGaps(ts: seq<Transition>, g: StateRef): seq<Transition> {
    Gaps(Sorting.SortByKey(ts, MinOf), 0, g)
  }

  /**
   * The body of the per-state loop: sort a copy of the transitions by min,
   * then walk them with the cursor.
   */
  method FindGaps(transitions: seq<Transition>, g: StateRef) returns (added: seq<Transition>)
    ensures added == StateGaps(transitions, g)
  {
    var sorted := Sorting.SortByKey(transitions, MinOf);
    added := ScanGaps(sorted, g);
  }

  /**
   * The `currentChar` walk over transitions sorted by min. After a transition
   * that ends at the last char nothing is left to fill, so the walk stops
   * without a trailing gap (see GapsAsWritten for the loop as written).
   */
  method ScanGaps(sorted: seq<Transition>, g: StateRef) returns (added: seq<Transition>)
    ensures added == Gaps(sorted, 0, g)
  {
    added := [];
    var currentChar: Char := 0;
    var k := 0;
    while k < |sorted|
      invariant 0 <= k <= |sorted|
      invariant added + Gaps(sorted[k..], currentChar, g) == Gaps(sorted, 0, g)
    {
      var t := sorted[k];
      var gap := GapBefore(currentChar, t, g);
      ScanStep(sorted, k, currentChar, g, added, Gaps(sorted, 0, g));
      if t.max == MaxChar {
        return added + gap;
      }
      added := added + gap;
      currentChar := t.max + 1;
      k := k + 1;
    }
    assert sorted[k..] == [];
    added := added + Trailing(currentChar, g);
  }

  /** The gap between the cursor and a transition that starts above it. */
  function GapBefore(cur: Char, t: Transition, g: StateRef): (r: seq<Transition>)
    ensures r != [] <==> cur < t.min
    ensures r != [] ==> r == [Transition(cur, t.min - 1, g)]
  {
    if cur < t.min then [Transition(cur, t.min - 1, g)] else []
  }

  /** One round of the scan keeps its invariant; after a transition ending at the last char the scan is done. */
  lemma ScanStep(sorted: seq<Transition>, k: nat, cur: Char, g: StateRef, added: seq<Transition>, all: seq<Transition>)
    requires k < |sorted| && added + Gaps(sorted[k..], cur, g) == all
    ensures sorted[k].max == MaxChar ==> added + GapBefore(cur, sorted[k], g) == all
    ensures sorted[k].max != MaxChar ==>
      (added + GapBefore(cur, sorted[k], g)) + Gaps(sorted[k + 1..], sorted[k].max + 1, g) == all
  {
    GapsStep(sorted, k, cur, g);
    if sorted[k].max != MaxChar {
      AppendAssoc(added, GapBefore(cur, sorted[k], g), Gaps(sorted[k + 1..], sorted[k].max + 1, g));
    }
  }

  lemma AppendAssoc(x: seq<Transition>, y: seq<Transition>, z: seq<Transition>)
    ensures (x + y) + z == x + (y + z)
  {
  }

  lemma GapsStep(ts: seq<Transition>, k: nat, cur: Char, g: StateRef)
    requires k < |ts|
    ensures Gaps(ts[k..], cur, g) ==
      if ts[k].max == MaxChar then GapBefore(cur, ts[k], g)
      else GapBefore(cur, ts[k], g) + Gaps(ts[k + 1..], ts[k].max + 1, g)
  {
    assert ts[k..][1..] == ts[k + 1..];
  }

  function GarbageState(g: StateRef): State {
    State(false, [Transition(0, 255, g)])
  }

  function CompletedState(s: State, g: StateRef): State {
    State(s.accept, s.transitions + StateGaps(s.transitions, g))
  }

  /** The handle of the garbage state: a state the automaton does not have. */
  function Garbage(a: Automaton): StateRef {
    Above(a.states)
  }

  /** Whether state r of a gets a gap. */
  function HasGap(a: Automaton, g: StateRef): StateRef -> bool {
    (r: StateRef) => r in a.info && StateGaps(a.info[r].transitions, g) != []
  }

  /** Whether p holds of one of the first n entries of s: the flag after n rounds. */
  function SomeUpTo(s: seq<StateRef>, p: StateRef -> bool, n: nat): bool
    requires n <= |s|
  {
    n > 0 && (SomeUpTo(s, p, n - 1) || p(s[n - 1]))
  }

  lemma {:induction false} SomeUpToExists(s: seq<StateRef>, p: StateRef -> bool, n: nat)
    requires n <= |s|
    ensures SomeUpTo(s, p, n) <==> exists j :: 0 <= j < n && p(s[j])
  {
    if n > 0 {
      SomeUpToExists(s, p, n - 1);
    }
  }

  function CompletedInfo(a: Automaton, g: StateRef): map<StateRef, State> {
    map r | r in a.info :: CompletedState(a.info[r], g)
  }

  /**
   * The automaton `completeDfa` returns, with its `garbageStateNeeded` flag,
   * with the cursor wrap corrected (GapsAsWritten is the loop as written).
   */
  function Completed(a: Automaton): (Automaton, bool)
  {
    var g := Garbage(a);
    if SomeUpTo(a.states, HasGap(a, g), |a.states|) then
      (Automaton(a.initial, a.states + [g], CompletedInfo(a, g)[g := GarbageState(g)], true), true)
    else (Automaton(a.initial, a.states, CompletedInfo(a, g), true), false)
  }

  /**
   * `completeDfa`: works on a copy, adds each state's gaps to it and sets the
   * flag when a gap is added; the garbage state belongs to the result exactly
   * when some transition leads to it.
   */
  method CompleteDfa(a: Automaton) returns (completed: Automaton, garbageStateNeeded: bool)
    requires Valid(a)
    ensures (completed, garbageStateNeeded) == Completed(a)
  {
    var g := Above(a.states);
    var garbageState := State(false, []);
    garbageState := garbageState.(transitions := garbageState.transitions + [Transition(0, 255, g)]);
    assert garbageState == GarbageState(g);
    var info;
    info, garbageStateNeeded := CompleteStates(a, g);
    var states := a.states;
    if garbageStateNeeded {
      info := info[g := garbageState];
      states := states + [g];
    }
    completed := Automaton(a.initial, states, info, true);
  }

  /** The loop over the states of the copy: each gets its gaps, the flag records any. */
  method CompleteStates(a: Automaton, g: StateRef) returns (info: map<StateRef, State>, garbageStateNeeded: bool)
    requires Valid(a)
    ensures info == CompletedInfo(a, g)
    ensures garbageStateNeeded == SomeUpTo(a.states, HasGap(a, g), |a.states|)
  {
    info, garbageStateNeeded := CompleteListed(a.states, a.info, g);
    CompletedInfoByIndex(a, g, info);
  }

  /** The fact the loop needs: the states are listed once each and all have an entry. */
  predicate Listed(states: seq<StateRef>, info: map<StateRef, State>) {
    && Distinct(states)
    && forall i :: 0 <= i < |states| ==> states[i] in info
  }

  method CompleteListed(states: seq<StateRef>, info0: map<StateRef, State>, g: StateRef)
    returns (info: map<StateRef, State>, garbageStateNeeded: bool)
    requires Listed(states, info0)
    ensures info.Keys == info0.Keys
    ensures forall j :: 0 <= j < |states| ==> info[states[j]] == CompletedState(info0[states[j]], g)
    ensures garbageStateNeeded == SomeUpTo(states, HasGap(Automaton(0, states, info0, false), g), |states|)
  {
    ghost var p := HasGap(Automaton(0, states, info0, false), g);
    garbageStateNeeded := false;
    info := info0;
    for i := 0 to |states|
      invariant info.Keys == info0.Keys
      invariant forall j :: 0 <= j < i ==> info[states[j]] == CompletedState(info0[states[j]], g)
      invariant forall j :: i <= j < |states| ==> info[states[j]] == info0[states[j]]
      invariant garbageStateNeeded == SomeUpTo(states, p, i)
    {
      var state := states[i];
      var completedState, added := CompleteState(info[state], g);
      assert p(state) == added;
      CompleteStep(states, info0, info, g, i, completedState);
      info := info[state := completedState];
      if added {
        garbageStateNeeded := true;
      }
    }
  }

  /** One round of the loop: the state's gaps are appended, and whether there were any. */
  method CompleteState(s: State, g: StateRef) returns (c: State, added: bool)
    ensures c == CompletedState(s, g)
    ensures added == (StateGaps(s.transitions, g) != [])
  {
    var gaps := FindGaps(s.transitions, g);
    c := State(s.accept, s.transitions + gaps);
    added := gaps != [];
  }

  /** Completing state i keeps the loop's picture of which states are done. */
  lemma CompleteStep(states: seq<StateRef>, info0: map<StateRef, State>, info: map<StateRef, State>,
                     g: StateRef, i: nat, c: State)
    requires Listed(states, info0) && info.Keys == info0.Keys && i < |states|
    requires forall j :: 0 <= j < i ==> info[states[j]] == CompletedState(info0[states[j]], g)
    requires forall j :: i <= j < |states| ==> info[states[j]] == info0[states[j]]
    requires c == CompletedState(info0[states[i]], g)
    ensures forall j :: 0 <= j <= i ==> info[states[i] := c][states[j]] == CompletedState(info0[states[j]], g)
    ensures forall j :: i < j < |states| ==> info[states[i] := c][states[j]] == info0[states[j]]
  {
  }

  lemma CompletedInfoByIndex(a: Automaton, g: StateRef, info: map<StateRef, State>)
    requires Valid(a)
    requires info.Keys == a.info.Keys
    requires forall j :: 0 <= j < |a.states| ==> info[a.states[j]] == CompletedState(a.info[a.states[j]], g)
    ensures info == CompletedInfo(a, g)
  {
    forall r | r in a.info ensures info[r] == CompletedInfo(a, g)[r] {
      var j :| 0 <= j < |a.states| && a.states[j] == r;
    }
  }

  /** The flag is set exactly when some state has a gap. */
  lemma NeededIffSomeGap(a: Automaton)
    requires Valid(a)
    ensures Completed(a).1 <==> exists r :: r in a.info && StateGaps(a.info[r].transitions, Garbage(a)) != []
  {
    var g := Garbage(a);
    SomeUpToExists(a.states, HasGap(a, g), |a.states|);
    if exists r :: r in a.info && StateGaps(a.info[r].transitions, g) != [] {
      var r :| r in a.info && StateGaps(a.info[r].transitions, g) != [];
      var j :| 0 <= j < |a.states| && a.states[j] == r;
    }
  }

  // ---- properties of the completion ----

  /** The garbage handle is new, the garbage state rejects and loops to itself on 0..255. */
  lemma GarbageIsFreshSink(a: Automaton)
    requires Valid(a)
    ensures Garbage(a) !in a.info
    ensures Completed(a).1 ==> Completed(a).0.info[Garbage(a)] == State(false, [Transition(0, 255, Garbage(a))])
  {
  }

  /**
   * Only transitions are added: every state keeps its accept flag and its
   * transitions as a prefix, the initial state and state list stay.
   */
  lemma CompletionOnlyAdds(a: Automaton)
    requires Valid(a)
    ensures Completed(a).0.initial == a.initial
    ensures Completed(a).0.states[..|a.states|] == a.states
    ensures forall r :: r in a.info ==>
      && r in Completed(a).0.info
      && Completed(a).0.info[r].accept == a.info[r].accept
      && Completed(a).0.info[r].transitions[..|a.info[r].transitions|] == a.info[r].transitions
  {
    forall r | r in a.info
      ensures r in Completed(a).0.info && Completed(a).0.info[r].accept == a.info[r].accept
      ensures Completed(a).0.info[r].transitions[..|a.info[r].transitions|] == a.info[r].transitions
    {
      CompletedEntry(a, r);
      var ts := a.info[r].transitions;
      assert (ts + StateGaps(ts, Garbage(a)))[..|ts|] == ts;
    }
    CompletedShape(a);
  }

  /** The initial state stays, and the garbage state, when needed, is listed after the others. */
  lemma CompletedShape(a: Automaton)
    ensures Completed(a).0.initial == a.initial
    ensures Completed(a).0.states == if Completed(a).1 then a.states + [Garbage(a)] else a.states
    ensures Completed(a).0.states[..|a.states|] == a.states
  {
    if Completed(a).1 {
      assert (a.states + [Garbage(a)])[..|a.states|] == a.states;
    }
  }

  /** The completed automaton's entry for an existing state is that state completed. */
  lemma CompletedEntry(a: Automaton, r: StateRef)
    requires Valid(a) && r in a.info
    ensures r in Completed(a).0.info && Completed(a).0.info[r] == CompletedState(a.info[r], Garbage(a))
  {
    GarbageIsFreshSink(a);
  }

  /** The flag is set exactly when some state got a new transition. */
  lemma FlagIffGapAdded(a: Automaton)
    requires Valid(a)
    ensures Completed(a).1 <==>
      exists r :: r in a.info && |Completed(a).0.info[r].transitions| > |a.info[r].transitions|
  {
    GarbageIsFreshSink(a);
    NeededIffSomeGap(a);
    var (c, needed) := Completed(a);
    forall r | r in a.info ensures |c.info[r].transitions| > |a.info[r].transitions| <==> StateGaps(a.info[r].transitions, Garbage(a)) != [] {
      assert c.info[r] == CompletedState(a.info[r], Garbage(a));
    }
  }

  /** A state without transitions gets the single gap 0..255. */
  lemma EmptyStateGetsFullGap(a: Automaton, r: StateRef)
    requires Valid(a) && r in a.info && a.info[r].transitions == []
    ensures Completed(a).1
    ensures Completed(a).0.info[r].transitions == [Transition(0, 255, Garbage(a))]
  {
    assert StateGaps(a.info[r].transitions, Garbage(a)) == [Transition(0, 255, Garbage(a))];
    GarbageIsFreshSink(a);
    NeededIffSomeGap(a);
  }

  /** The completed automaton is again well formed. */
  lemma CompletedValid(a: Automaton)
    requires Valid(a)
    ensures Valid(Completed(a).0)
  {
    var g := Garbage(a);
    var (c, needed) := Completed(a);
    GarbageIsFreshSink(a);
    NeededIffSomeGap(a);
    forall r, i | r in c.info && 0 <= i < |c.info[r].transitions|
      ensures c.info[r].transitions[i].min <= c.info[r].transitions[i].max
      ensures c.info[r].transitions[i].dest in c.info
    {
      if r != g {
        CompletedTransition(a, r, i);
        CompletedEntry(a, r);
      }
    }
    if needed {
      forall j, k | 0 <= j < k < |c.states| ensures c.states[j] != c.states[k] {
        if k == |a.states| {
          assert c.states[j] == a.states[j];
        }
      }
    }
  }

  /** A transition of a completed state is one of its own, or a gap leading to the garbage state. */
  lemma CompletedTransition(a: Automaton, r: StateRef, i: nat)
    requires Valid(a) && r in a.info
    requires i < |CompletedState(a.info[r], Garbage(a)).transitions|
    ensures var t := CompletedState(a.info[r], Garbage(a)).transitions[i];
      t.min <= t.max && (t.dest in a.info || (t.dest == Garbage(a) && StateGaps(a.info[r].transitions, Garbage(a)) != []))
  {
    var g := Garbage(a);
    var ts := a.info[r].transitions;
    var gs := StateGaps(ts, g);
    var all := CompletedState(a.info[r], g).transitions;
    assert all == ts + gs;
    if i >= |ts| {
      GapsGoToGarbage(Sorting.SortByKey(ts, MinOf), 0, g);
      assert all[i] == gs[i - |ts|];
    } else {
      assert all[i] == ts[i];
    }
  }

  /** Every gap goes to g and is a proper range. */
  lemma {:induction false} GapsGoToGarbage(ts: seq<Transition>, cur: Char, g: StateRef)
    ensures forall i :: 0 <= i < |Gaps(ts, cur, g)| ==> Gaps(ts, cur, g)[i].dest == g
    ensures forall i :: 0 <= i < |Gaps(ts, cur, g)| ==> Gaps(ts, cur, g)[i].min <= Gaps(ts, cur, g)[i].max
    decreases |ts|
  {
    if ts != [] && ts[0].max != MaxChar {
      GapsGoToGarbage(ts[1..], ts[0].max + 1, g);
    }
  }

  // ---- the partition of 0..255 ----

  function CoversByte(b: int): Transition -> bool {
    (t: Transition) => Contains(t, b)
  }

  ghost predicate InBytes(ts: seq<Transition>) {
    forall i :: 0 <= i < |ts| ==> ts[i].min <= ts[i].max <= 255
  }

  /** Every range is non-empty; its bounds are chars, so it may reach up to MaxChar. */
  ghost predicate Proper(ts: seq<Transition>) {
    forall i :: 0 <= i < |ts| ==> ts[i].min <= ts[i].max
  }

  ghost predicate PairwiseDisjoint(ts: seq<Transition>) {
    forall i, j :: 0 <= i < |ts| && 0 <= j < |ts| && i != j ==> ts[i].max < ts[j].min || ts[j].max < ts[i].min
  }

  /** Each transition ends below the start of every later one. */
  ghost predicate Chain(ts: seq<Transition>) {
    forall i, j :: 0 <= i < j < |ts| ==> ts[i].max < ts[j].min
  }

  lemma DisjointCoverAtMostOnce(ts: seq<Transition>, b: int)
    requires PairwiseDisjoint(ts)
    ensures Sorting.CountWhere(ts, CoversByte(b)) <= 1
  {
    Sorting.CountAtMostOne(ts, CoversByte(b));
  }

  /** Sorted by min, disjoint ranges form a chain, and stay within 0..255 when they were. */
  lemma SortedDisjointChain(ts: seq<Transition>)
    requires Proper(ts) && PairwiseDisjoint(ts)
    ensures Chain(Sorting.SortByKey(ts, MinOf)) && Proper(Sorting.SortByKey(ts, MinOf))
    ensures InBytes(ts) ==> InBytes(Sorting.SortByKey(ts, MinOf))
  {
    var s := Sorting.SortByKey(ts, MinOf);
    forall i | 0 <= i < |s| ensures s[i].min <= s[i].max && (InBytes(ts) ==> s[i].max <= 255) {
      assert s[i] in multiset(ts);
    }
    forall i, j | 0 <= i < j < |s| ensures s[i].max < s[j].min {
      if s[i].max >= s[j].min {
        var b := s[j].min;
        assert MinOf(s[i]) <= MinOf(s[j]);
        Sorting.CountTwo(s, CoversByte(b), i, j);
        Sorting.CountSort(ts, MinOf, CoversByte(b));
        DisjointCoverAtMostOnce(ts, b);
        assert false;
      }
    }
  }

  /**
   * After a chain of char ranges starting at or above the cursor, the ranges
   * and their gaps cover each byte from the cursor on exactly once, and
   * nothing below it.
   */
  lemma {:induction false} GapsCoverOnce(s: seq<Transition>, cur: Char, g: StateRef, b: int)
    requires Chain(s) && Proper(s) && 0 <= b <= 255
    requires s != [] ==> cur <= s[0].min
    ensures Sorting.CountWhere(s + Gaps(s, cur, g), CoversByte(b)) == if cur <= b then 1 else 0
    decreases |s|
  {
    if s == [] {
      assert s + Gaps(s, cur, g) == Trailing(cur, g);
    } else if s[0].max == MaxChar {
      LastCharCoverOnce(s, cur, g, b);
    } else {
      ChainTail(s);
      GapsCoverOnce(s[1..], s[0].max + 1, g, b);
      CoverStep(s, cur, g, b);
    }
  }

  /** The tail of a chain is a chain that starts above the head's range. */
  lemma ChainTail(s: seq<Transition>)
    requires Chain(s) && Proper(s) && s != []
    ensures Chain(s[1..]) && Proper(s[1..])
    ensures |s| > 1 ==> s[0].max < s[1..][0].min
  {
  }

  /** One range and its gap in front extend the cover of the rest down to the cursor. */
  lemma CoverStep(s: seq<Transition>, cur: Char, g: StateRef, b: int)
    requires Proper(s) && 0 <= b <= 255 && s != [] && cur <= s[0].min && s[0].max < MaxChar
    requires Sorting.CountWhere(s[1..] + Gaps(s[1..], s[0].max + 1, g), CoversByte(b))
             == if s[0].max + 1 <= b then 1 else 0
    ensures Sorting.CountWhere(s + Gaps(s, cur, g), CoversByte(b)) == if cur <= b then 1 else 0
  {
    var p := CoversByte(b);
    var t := s[0];
    var rest := s[1..];
    var gap := GapBefore(cur, t, g);
    var later := Gaps(rest, t.max + 1, g);
    assert s + Gaps(s, cur, g) == ([t] + rest) + (gap + later) by {
      assert s == [t] + rest;
    }
    CountStep(t, rest, gap, later, p);
    assert Sorting.CountWhere([t], p) == if t.min <= b <= t.max then 1 else 0;
    assert Sorting.CountWhere(gap, p) == if cur < t.min && cur <= b < t.min then 1 else 0;
  }

  /** A range followed by another in a chain ends below the last char. */
  lemma ChainFirstBelowNext(s: seq<Transition>)
    requires Chain(s) && s != []
    ensures |s| > 1 ==> s[0].max < MaxChar
  {
    if |s| > 1 {
      assert s[0].max < s[1].min;
    }
  }

  /** A chain whose first range ends at the last char is that one range; it and its gap cover from the cursor on. */
  lemma LastCharCoverOnce(s: seq<Transition>, cur: Char, g: StateRef, b: int)
    requires Chain(s) && Proper(s) && 0 <= b <= 255
    requires s != [] && cur <= s[0].min && s[0].max == MaxChar
    ensures s == [s[0]]
    ensures Sorting.CountWhere(s + Gaps(s, cur, g), CoversByte(b)) == if cur <= b then 1 else 0
  {
    var p := CoversByte(b);
    var t := s[0];
    ChainFirstBelowNext(s);
    assert s == [t];
    var gap := GapBefore(cur, t, g);
    assert s + Gaps(s, cur, g) == [t] + gap;
    Sorting.CountAppend([t], gap, p);
    assert Sorting.CountWhere([t], p) == if t.min <= b <= t.max then 1 else 0;
    assert Sorting.CountWhere(gap, p) == if cur < t.min && cur <= b < t.min then 1 else 0;
  }

  lemma CountStep(t: Transition, rest: seq<Transition>, gap: seq<Transition>, later: seq<Transition>,
                  p: Transition -> bool)
    ensures Sorting.CountWhere(([t] + rest) + (gap + later), p)
         == Sorting.CountWhere([t], p) + Sorting.CountWhere(gap, p) + Sorting.CountWhere(rest + later, p)
  {
    Sorting.CountAppend([t] + rest, gap + later, p);
    Sorting.CountAppend([t], rest, p);
    Sorting.CountAppend(gap, later, p);
    Sorting.CountAppend(rest, later, p);
  }

  lemma {:induction false} GapsInBytes(s: seq<Transition>, cur: Char, g: StateRef)
    requires InBytes(s)
    ensures InBytes(Gaps(s, cur, g))
    decreases |s|
  {
    if s != [] {
      assert InBytes(s[1..]);
      GapsInBytes(s[1..], s[0].max + 1, g);
    }
  }

  /**
   * A state whose ranges are disjoint has, once completed, ranges that
   * cover every byte of 0..255 exactly once; when its ranges were within
   * 0..255, so are the completed ones.
   */
  lemma CompletedStatePartitions(s: State, g: StateRef)
    requires Proper(s.transitions) && PairwiseDisjoint(s.transitions)
    ensures InBytes(s.transitions) ==> InBytes(CompletedState(s, g).transitions)
    ensures forall b :: 0 <= b <= 255 ==> Sorting.CountWhere(CompletedState(s, g).transitions, CoversByte(b)) == 1
  {
    var ts := s.transitions;
    var sorted := Sorting.SortByKey(ts, MinOf);
    var gs := StateGaps(s.transitions, g);
    SortedDisjointChain(ts);
    if InBytes(ts) {
      GapsInBytes(sorted, 0, g);
    }
    forall b | 0 <= b <= 255 ensures Sorting.CountWhere(ts + gs, CoversByte(b)) == 1 {
      GapsCoverOnce(sorted, 0, g, b);
      Sorting.CountAppend(sorted, gs, CoversByte(b));
      Sorting.CountAppend(ts, gs, CoversByte(b));
      Sorting.CountSort(ts, MinOf, CoversByte(b));
    }
  }

  /**
   * As `completeDfa` promises: a state with disjoint ranges ends up covering
   * every byte 0..255 exactly once, whether or not its ranges reach above 255.
   */
  lemma CompleteDfaPartitions(a: Automaton, r: StateRef)
    requires Valid(a) && r in a.info
    requires PairwiseDisjoint(a.info[r].transitions)
    ensures InBytes(a.info[r].transitions) ==> InBytes(Completed(a).0.info[r].transitions)
    ensures forall b :: 0 <= b <= 255 ==> Sorting.CountWhere(Completed(a).0.info[r].transitions, CoversByte(b)) == 1
  {
    GarbageIsFreshSink(a);
    assert Completed(a).0.info[r] == CompletedState(a.info[r], Garbage(a));
    CompletedStatePartitions(a.info[r], Garbage(a));
  }

  // ---- brics' set of transitions ----

  /**
   * `State.addTransition`: brics keeps a state's transitions in a set whose
   * elements are equal when min, max and target are, so adding a transition
   * that is already there changes nothing.
   */
  function AddTransition(ts: seq<Transition>, t: Transition): (r: seq<Transition>)
    ensures t in r
    ensures forall x :: x in r <==> x in ts || x == t
    ensures |r| == if t in ts then |ts| else |ts| + 1
  {
    if t in ts then ts else ts + [t]
  }

  /** The transitions added one `addTransition` call at a time, in order. */
  function AddTransitions(ts: seq<Transition>, added: seq<Transition>): seq<Transition>
    decreases |added|
  {
    if added == [] then ts else AddTransitions(AddTransition(ts, added[0]), added[1..])
  }

  /** Adding x and then y is adding x + y. */
  lemma {:induction false} AddTransitionsAppend(ts: seq<Transition>, x: seq<Transition>, y: seq<Transition>)
    ensures AddTransitions(ts, x + y) == AddTransitions(AddTransitions(ts, x), y)
    decreases |x|
  {
    if x == [] {
      assert x + y == y;
    } else {
      assert (x + y)[0] == x[0];
      assert (x + y)[1..] == x[1..] + y;
      AddTransitionsAppend(AddTransition(ts, x[0]), x[1..], y);
    }
  }

  /** Transitions that are new and pairwise distinct are simply appended. */
  lemma {:induction false} AddFresh(ts: seq<Transition>, added: seq<Transition>)
    requires forall i :: 0 <= i < |added| ==> added[i] !in ts
    requires forall i, j :: 0 <= i < j < |added| ==> added[i] != added[j]
    ensures AddTransitions(ts, added) == ts + added
    decreases |added|
  {
    if added != [] {
      var t := added[0];
      var rest := added[1..];
      assert AddTransition(ts, t) == ts + [t];
      forall i | 0 <= i < |rest| ensures rest[i] !in ts + [t] {
        assert rest[i] == added[i + 1];
      }
      forall i, j | 0 <= i < j < |rest| ensures rest[i] != rest[j] {
        assert rest[i] == added[i + 1] && rest[j] == added[j + 1];
      }
      AddFresh(ts + [t], rest);
      assert (ts + [t]) + rest == ts + added;
    }
  }

  /** No transition of ts leads to g. */
  ghost predicate NoneTo(ts: seq<Transition>, g: StateRef) {
    forall i :: 0 <= i < |ts| ==> ts[i].dest != g
  }

  /** Every range of gs starts at or above c, and they start in strictly ascending order. */
  ghost predicate MinsAscendFrom(gs: seq<Transition>, c: int) {
    && (forall i :: 0 <= i < |gs| ==> c <= gs[i].min)
    && (forall i, j :: 0 <= i < j < |gs| ==> gs[i].min < gs[j].min)
  }

  /** A gap at the cursor in front of ranges starting further up keeps the order. */
  lemma AscendConcat(gap: seq<Transition>, later: seq<Transition>, cur: int, next: int)
    requires gap == [] || (|gap| == 1 && gap[0].min == cur)
    requires cur < next && MinsAscendFrom(later, next)
    ensures MinsAscendFrom(gap + later, cur)
  {
    var all := gap + later;
    forall i | |gap| <= i < |all| ensures all[i] == later[i - |gap|] {
    }
  }

  /** The gaps of a chain start at or above the cursor and are in strictly ascending order. */
  lemma {:induction false} GapsAscending(s: seq<Transition>, cur: Char, g: StateRef)
    requires Chain(s) && Proper(s)
    requires s != [] ==> cur <= s[0].min
    ensures MinsAscendFrom(Gaps(s, cur, g), cur)
    decreases |s|
  {
    if s != [] && s[0].max != MaxChar {
      var t := s[0];
      ChainTail(s);
      GapsAscending(s[1..], t.max + 1, g);
      AscendConcat(GapBefore(cur, t, g), Gaps(s[1..], t.max + 1, g), cur, t.max + 1);
    }
  }

  /**
   * With g a state no transition leads to, the corrected gaps are new and
   * distinct, so adding them to the set one by one appends them: for the
   * corrected scan the list and the set agree.
   */
  lemma CompletedStateAddsFresh(s: State, g: StateRef)
    requires Proper(s.transitions) && PairwiseDisjoint(s.transitions) && NoneTo(s.transitions, g)
    ensures AddTransitions(s.transitions, StateGaps(s.transitions, g)) == CompletedState(s, g).transitions
    ensures |CompletedState(s, g).transitions| == |s.transitions| + |StateGaps(s.transitions, g)|
  {
    var ts := s.transitions;
    var sorted := Sorting.SortByKey(ts, MinOf);
    var gs := StateGaps(ts, g);
    SortedDisjointChain(ts);
    GapsGoToGarbage(sorted, 0, g);
    GapsAscending(sorted, 0, g);
    forall i | 0 <= i < |gs| ensures gs[i] !in ts {
      assert gs[i].dest == g;
    }
    AddFresh(ts, gs);
  }

  // ---- the cursor wrap in the Java loop ----

  /** The two scans differ only after a transition that ends at the last char. */
  lemma {:induction false} GapsAgreeBelowMaxChar(ts: seq<Transition>, cur: Char, g: StateRef)
    requires forall i :: 0 <= i < |ts| ==> ts[i].max < MaxChar
    ensures GapsAsWritten(ts, cur, g) == Gaps(ts, cur, g)
    decreases |ts|
  {
    if ts != [] {
      var rest := ts[1..];
      forall i | 0 <= i < |rest| ensures rest[i].max < MaxChar {
        assert rest[i] == ts[i + 1];
      }
      assert ts[0].max < MaxChar;
      GapsAgreeBelowMaxChar(rest, ts[0].max + 1, g);
      assert GapsAsWritten(ts, cur, g) == GapBefore(cur, ts[0], g) + GapsAsWritten(rest, ts[0].max + 1, g);
      assert Gaps(ts, cur, g) == GapBefore(cur, ts[0], g) + Gaps(rest, ts[0].max + 1, g);
    }
  }

  /** A state completed by the loop as written, each gap added to the state's set of transitions. */
  function CompletedStateAsWritten(s: State, g: StateRef): State {
    State(s.accept, AddTransitions(s.transitions, GapsAsWritten(Sorting.SortByKey(s.transitions, MinOf), 0, g)))
  }

  /** Once some transition ends at the last char, the loop as written adds 0..255 on top of the right gaps. */
  lemma {:induction false} AsWrittenAddsFullRange(ts: seq<Transition>, cur: Char, g: StateRef)
    requires exists i :: 0 <= i < |ts| && ts[i].max == MaxChar
    ensures GapsAsWritten(ts, cur, g) == Gaps(ts, cur, g) + [Transition(0, 255, g)]
    decreases |ts|
  {
    var t := ts[0];
    var gap := GapBefore(cur, t, g);
    if t.max != MaxChar {
      var rest := ts[1..];
      var i :| 0 <= i < |ts| && ts[i].max == MaxChar;
      assert rest[i - 1] == ts[i];
      AsWrittenAddsFullRange(rest, t.max + 1, g);
      AppendAssoc(gap, Gaps(rest, t.max + 1, g), [Transition(0, 255, g)]);
    }
  }

  /** m is the smallest lower bound among the ranges of ts. */
  ghost predicate LowestMinIs(ts: seq<Transition>, m: int) {
    && (exists i :: 0 <= i < |ts| && ts[i].min == m)
    && (forall i :: 0 <= i < |ts| ==> m <= ts[i].min)
  }

  /** The first range in min order has the smallest lower bound, and no other value is the smallest. */
  lemma SortedLowest(ts: seq<Transition>)
    requires ts != []
    ensures forall m :: LowestMinIs(ts, m) <==> m == Sorting.SortByKey(ts, MinOf)[0].min
  {
    var sorted := Sorting.SortByKey(ts, MinOf);
    var low := sorted[0].min;
    assert sorted[0] in multiset(ts);
    forall i | 0 <= i < |ts| ensures low <= ts[i].min {
      assert ts[i] in multiset(sorted);
      var k :| 0 <= k < |sorted| && sorted[k] == ts[i];
      assert MinOf(sorted[0]) <= MinOf(sorted[k]);
    }
    assert LowestMinIs(ts, low);
  }

  /**
   * Among the gaps of a chain scanned from 0, 0..255 to g appears exactly
   * when the first range starts at 256: then it is the first gap, and every
   * other gap starts above 0.
   */
  lemma FullGapIffFirstAt256(s: seq<Transition>, g: StateRef)
    requires Chain(s) && Proper(s) && s != []
    ensures Transition(0, 255, g) in Gaps(s, 0, g) <==> s[0].min == 0x100
  {
    if s[0].min > 0 {
      FullGapLeading(s, g);
    } else {
      FullGapAbsentFromZero(s, g);
    }
  }

  /** When the chain starts above 0 the first gap starts at 0, and it is the only one that does. */
  lemma FullGapLeading(s: seq<Transition>, g: StateRef)
    requires Chain(s) && Proper(s) && s != [] && s[0].min > 0
    ensures Transition(0, 255, g) in Gaps(s, 0, g) <==> s[0].min == 0x100
  {
    var gs := Gaps(s, 0, g);
    GapsAscending(s, 0, g);
    assert gs[0] == Transition(0, s[0].min - 1, g);
    forall i | 0 < i < |gs| ensures gs[i].min > 0 {
      assert gs[0].min < gs[i].min;
    }
  }

  /** When the chain starts at 0 every gap starts above the first range. */
  lemma FullGapAbsentFromZero(s: seq<Transition>, g: StateRef)
    requires Chain(s) && Proper(s) && s != [] && s[0].min == 0
    ensures Transition(0, 255, g) !in Gaps(s, 0, g)
  {
    var t := s[0];
    if t.max != MaxChar {
      var gs := Gaps(s[1..], t.max + 1, g);
      ChainTail(s);
      GapsAscending(s[1..], t.max + 1, g);
      assert Gaps(s, 0, g) == gs;
      forall i | 0 <= i < |gs| ensures gs[i].min > 0 {
        assert t.max + 1 <= gs[i].min;
      }
    }
  }

  /**
   * What the loop as written leaves, in terms of the corrected completion:
   * the trailing 0..255 to g is one more transition, unless the first gap
   * already was 0..255 to g, in which case the set keeps it once.
   */
  lemma AsWrittenState(s: State, g: StateRef)
    requires Proper(s.transitions) && PairwiseDisjoint(s.transitions) && NoneTo(s.transitions, g)
    requires exists i :: 0 <= i < |s.transitions| && s.transitions[i].max == MaxChar
    ensures CompletedStateAsWritten(s, g).transitions ==
      if LowestMinIs(s.transitions, 0x100) then CompletedState(s, g).transitions
      else CompletedState(s, g).transitions + [Transition(0, 255, g)]
  {
    var ts := s.transitions;
    var sorted := Sorting.SortByKey(ts, MinOf);
    var gs := StateGaps(ts, g);
    var full := Transition(0, 255, g);
    SortedKeepsLastChar(ts);
    AsWrittenAddsFullRange(sorted, 0, g);
    AddTransitionsAppend(ts, gs, [full]);
    CompletedStateAddsFresh(s, g);
    assert AddTransitions(ts + gs, [full]) == AddTransition(ts + gs, full);
    SortedDisjointChain(ts);
    FullGapIffFirstAt256(sorted, g);
    SortedLowest(ts);
    assert full !in ts by {
      assert NoneTo(ts, g);
    }
  }

  /**
   * For a state with disjoint ranges one of which reaches the last char,
   * completed for a garbage state none of its transitions leads to, the loop
   * as written leaves every byte of 0..255 with two transitions, where the
   * corrected scan leaves one; only when the lowest range starts at 256 does
   * the set absorb the extra 0..255 and each byte keep one.
   */
  lemma AsWrittenCoversTwice(s: State, g: StateRef)
    requires Proper(s.transitions) && PairwiseDisjoint(s.transitions) && NoneTo(s.transitions, g)
    requires exists i :: 0 <= i < |s.transitions| && s.transitions[i].max == MaxChar
    ensures forall b :: 0 <= b <= 255 ==> Sorting.CountWhere(CompletedState(s, g).transitions, CoversByte(b)) == 1
    ensures forall b :: 0 <= b <= 255 ==>
      Sorting.CountWhere(CompletedStateAsWritten(s, g).transitions, CoversByte(b))
        == if LowestMinIs(s.transitions, 0x100) then 1 else 2
  {
    AsWrittenState(s, g);
    CompletedStatePartitions(s, g);
    forall b | 0 <= b <= 255
      ensures Sorting.CountWhere(CompletedStateAsWritten(s, g).transitions, CoversByte(b))
        == if LowestMinIs(s.transitions, 0x100) then 1 else 2
    {
      if !LowestMinIs(s.transitions, 0x100) {
        AsWrittenByte(CompletedState(s, g).transitions, g, b);
      }
    }
  }

  lemma SortedKeepsLastChar(ts: seq<Transition>)
    requires exists i :: 0 <= i < |ts| && ts[i].max == MaxChar
    ensures exists k :: 0 <= k < |Sorting.SortByKey(ts, MinOf)| && Sorting.SortByKey(ts, MinOf)[k].max == MaxChar
  {
    var sorted := Sorting.SortByKey(ts, MinOf);
    var i :| 0 <= i < |ts| && ts[i].max == MaxChar;
    assert ts[i] in multiset(sorted);
    var k :| 0 <= k < |sorted| && sorted[k] == ts[i];
  }

  /** The extra 0..255 range adds one cover to every byte. */
  lemma AsWrittenByte(ts: seq<Transition>, g: StateRef, b: int)
    requires 0 <= b <= 255
    ensures Sorting.CountWhere(ts + [Transition(0, 255, g)], CoversByte(b)) == Sorting.CountWhere(ts, CoversByte(b)) + 1
  {
    var full := [Transition(0, 255, g)];
    Sorting.CountAppend(ts, full, CoversByte(b));
    assert Sorting.CountWhere(full, CoversByte(b)) == 1 by {
      assert full[1..] == [];
    }
  }

  /**
   * Both scans in the automaton: the garbage state `completeDfa` makes is
   * new, so no transition leads to it, and a state with disjoint ranges one
   * of which ends at the last char gets every byte covered twice by the loop
   * as written, unless its lowest range starts at 256.
   */
  lemma CompleteDfaAsWrittenCoversTwice(a: Automaton, r: StateRef)
    requires Valid(a) && r in a.info
    requires PairwiseDisjoint(a.info[r].transitions)
    requires exists i :: 0 <= i < |a.info[r].transitions| && a.info[r].transitions[i].max == MaxChar
    ensures forall b :: 0 <= b <= 255 ==>
      Sorting.CountWhere(CompletedStateAsWritten(a.info[r], Garbage(a)).transitions, CoversByte(b))
        == if LowestMinIs(a.info[r].transitions, 0x100) then 1 else 2
  {
    GarbageIsFreshSink(a);
    assert NoneTo(a.info[r].transitions, Garbage(a));
    AsWrittenCoversTwice(a.info[r], Garbage(a));
  }

  /**
   * A state whose one transition covers every char is complete, yet the
   * loop as written adds 0..255 to the garbage state after the cursor wraps,
   * so byte 0 then has two transitions.
   */
  lemma AsWrittenOverlapsFullRange()
    ensures CompletedStateAsWritten(State(false, [Transition(0, MaxChar, 1)]), 2).transitions
      == [Transition(0, MaxChar, 1), Transition(0, 255, 2)]
    ensures Sorting.CountWhere(CompletedStateAsWritten(State(false, [Transition(0, MaxChar, 1)]), 2).transitions, CoversByte(0)) == 2
    ensures CompletedState(State(false, [Transition(0, MaxChar, 1)]), 2).transitions == [Transition(0, MaxChar, 1)]
  {
    var t := Transition(0, MaxChar, 1);
    var full := Transition(0, 255, 2);
    var both := [t, full];
    var p := CoversByte(0);
    assert Sorting.SortByKey([t], MinOf) == [t];
    assert GapsAsWritten([t], 0, 2) == [full];
    assert Gaps([t], 0, 2) == [];
    assert AddTransitions([t], [full]) == AddTransitions([t] + [full], []);
    assert [t] + [full] == both;
    assert both[1..] == [full];
    assert both[1..][1..] == [];
    assert Sorting.CountWhere(both[1..][1..], p) == 0;
    assert Sorting.CountWhere(both[1..], p) == 1;
    assert Sorting.CountWhere(both, p) == 2;
  }

  /**
   * A state whose one transition starts at 256 and reaches the last char:
   * the first gap is 0..255 to the garbage state, and the trailing 0..255 the
   * loop as written adds after the wrap is equal to it, so the set keeps one.
   */
  lemma AsWrittenAbsorbedAt256()
    ensures CompletedStateAsWritten(State(false, [Transition(0x100, MaxChar, 0)]), 1).transitions
      == [Transition(0x100, MaxChar, 0), Transition(0, 255, 1)]
    ensures CompletedStateAsWritten(State(false, [Transition(0x100, MaxChar, 0)]), 1)
      == CompletedState(State(false, [Transition(0x100, MaxChar, 0)]), 1)
  {
    var t := Transition(0x100, MaxChar, 0);
    var full := Transition(0, 255, 1);
    assert Sorting.SortByKey([t], MinOf) == [t];
    assert GapsAsWritten([t], 0, 1) == [full, full];
    assert Gaps([t], 0, 1) == [full];
    assert AddTransition([t], full) == [t, full];
    assert AddTransitions([t, full], [full]) == AddTransitions([t, full], []);
    assert AddTransitions([t], [full, full]) == AddTransitions([t, full], [full]);
  }
}
