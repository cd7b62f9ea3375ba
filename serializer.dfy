/**
 * AutomatonSerializer.serializeToJson up to the JSON object it writes:
 * states are numbered 1..n in list order, the accepting ids are sorted, one
 * entry is emitted per transition and the entries are sorted by current
 * state, then range start.
 */
module Serializer {
  import opened Brics
  import Sorting

  datatype TransitionEntry = TransitionEntry(currState: int, rangeStart: int, rangeEnd: int, nextState: int)

  datatype AutomatonJson = AutomatonJson(comment: string, startState: int, matchStates: seq<int>,
                                         transitionTable: seq<TransitionEntry>)

  function IndexOf(s: seq<StateRef>, r: StateRef): (i: nat)
    requires r in s
    ensures i < |s| && s[i] == r
    ensures forall j :: 0 <= j < i ==> s[j] != r
  {
    if s[0] == r then 0 else 1 + IndexOf(s[1..], r)
  }

  /** The id the serializer gives a state: its position in the state list, counted from 1. */
  function Id(a: Automaton, r: StateRef): int
    requires r in a.states
  {
    IndexOf(a.states, r) + 1
  }

  /** The numbering is a bijection from the state list onto 1..n that follows list order. */
  lemma IdBijective(a: Automaton)
    requires Valid(a)
    ensures forall r :: r in a.states ==> 1 <= Id(a, r) <= |a.states|
    ensures forall i :: 0 <= i < |a.states| ==> Id(a, a.states[i]) == i + 1
    ensures forall r, q :: r in a.states && q in a.states && Id(a, r) == Id(a, q) ==> r == q
  {
    forall i | 0 <= i < |a.states| ensures Id(a, a.states[i]) == i + 1 {
      IdAt(a, i);
    }
  }

  lemma IdAt(a: Automaton, i: int)
    requires Distinct(a.states) && 0 <= i < |a.states|
    ensures Id(a, a.states[i]) == i + 1
  {
    var j := IndexOf(a.states, a.states[i]);
    assert a.states[j] == a.states[i];
  }

  /** The `stateMap` loop: the state at list index i gets id i + 1. */
  method NumberStates(states: seq<StateRef>) returns (m: map<StateRef, int>)
    requires Distinct(states)
    ensures forall r :: r in m <==> r in states
    ensures forall i :: 0 <= i < |states| ==> m[states[i]] == i + 1
  {
    m := map[];
    for i := 0 to |states|
      invariant forall r :: r in m <==> r in states[..i]
      invariant forall j :: 0 <= j < i ==> m[states[j]] == j + 1
    {
      m := m[states[i] := i + 1];
    }
    assert states[..|states|] == states;
  }

  /** `getAcceptStates()`, listed in state-list order. */
  function AcceptStates(a: Automaton, rs: seq<StateRef>): (acc: seq<StateRef>)
    requires forall i :: 0 <= i < |rs| ==> rs[i] in a.info
    ensures forall r :: r in acc <==> r in rs && a.info[r].accept
  {
    if rs == [] then []
    else
      assert forall i :: 1 <= i < |rs| ==> rs[i] == rs[1..][i - 1];
      (if a.info[rs[0]].accept then [rs[0]] else []) + AcceptStates(a, rs[1..])
  }

  function AcceptIds(a: Automaton): seq<int>
    requires Valid(a)
  {
    var acc := AcceptStates(a, a.states);
    seq(|acc|, i requires 0 <= i < |acc| => Id(a, acc[i]))
  }

  function MatchKey(x: int): int {
    x
  }

  /** One entry per outgoing transition of r, in the order the state lists them. */
  function StateEntries(a: Automaton, r: StateRef): seq<TransitionEntry>
    requires Valid(a) && r in a.info
  {
    var ts := a.info[r].transitions;
    seq(|ts|, k requires 0 <= k < |ts| =>
      TransitionEntry(Id(a, r), ts[k].min, ts[k].max, Id(a, ts[k].dest)))
  }

  /** The table before sorting, for the first n states of the list. */
  function EntriesUpTo(a: Automaton, n: nat): seq<TransitionEntry>
    requires Valid(a) && n <= |a.states|
  {
    if n == 0 then [] else EntriesUpTo(a, n - 1) + StateEntries(a, a.states[n - 1])
  }

  /** Orders entries as the comparator does: by current state, then range start. */
  function EntryKey(e: TransitionEntry): int {
    e.currState * 0x10000 + e.rangeStart
  }

  /** The regex appears verbatim between the quotes, with nothing escaped. */
  function Comment(regex: string): (c: string)
    ensures |c| > |regex| + 1 && c[|c| - 1] == '\'' && c[|c| - 2 - |regex|] == '\''
    ensures c[|c| - 1 - |regex|..|c| - 1] == regex
  {
    "This corresponds to the regular expression '" + regex + "'"
  }

  /** The line `serializeToJson` prints on stdout once the file is written. */
  function Announcement(filename: string): string {
    "Automaton serialized to " + filename
  }

  /** `match_states` after `Collections.sort`. */
  function MatchStates(a: Automaton): seq<int>
    requires Valid(a)
  {
    Sorting.SortByKey(AcceptIds(a), MatchKey)
  }

  /** `transition_table` after `List.sort`. */
  function Table(a: Automaton): seq<TransitionEntry>
    requires Valid(a)
  {
    Sorting.SortByKey(EntriesUpTo(a, |a.states|), EntryKey)
  }

  /** The object `serializeToJson` hands to the JSON writer. */
  function Serialized(a: Automaton, regex: string): AutomatonJson
    requires Valid(a)
  {
    AutomatonJson(Comment(regex), Id(a, a.initial), MatchStates(a), Table(a))
  }

  /** `stateMap` agrees with Id on every listed state. */
  ghost predicate NumbersStates(a: Automaton, stateMap: map<StateRef, int>) {
    forall r :: r in a.states ==> r in stateMap && stateMap[r] == Id(a, r)
  }

  method SerializeToJson(a: Automaton, regex: string) returns (j: AutomatonJson)
    requires Valid(a)
    ensures j == Serialized(a, regex)
  {
    var stateMap := NumberStates(a.states);
    forall r | r in a.states ensures r in stateMap && stateMap[r] == Id(a, r) {
      var i := IndexOf(a.states, r);
    }
    var startState := stateMap[a.initial];
    var matchStates := CollectMatchStates(a, stateMap);
    matchStates := Sorting.SortByKey(matchStates, MatchKey);
    var transitionTable := BuildTransitionTable(a, stateMap);
    transitionTable := Sorting.SortByKey(transitionTable, EntryKey);
    j := AutomatonJson(Comment(regex), startState, matchStates, transitionTable);
  }

  /** The loop over `getAcceptStates()`, before `Collections.sort`. */
  method CollectMatchStates(a: Automaton, stateMap: map<StateRef, int>) returns (matchStates: seq<int>)
    requires Valid(a) && NumbersStates(a, stateMap)
    ensures matchStates == AcceptIds(a)
  {
    var acc := AcceptStates(a, a.states);
    AcceptStatesNumbered(a, stateMap);
    matchStates := LookUpAll(acc, stateMap);
    AcceptIdsByLookup(a, stateMap, matchStates);
  }

  /** `stateMap.get(s)` for each state in turn, appended to the list. */
  method LookUpAll(rs: seq<StateRef>, stateMap: map<StateRef, int>) returns (ids: seq<int>)
    requires forall k :: 0 <= k < |rs| ==> rs[k] in stateMap
    ensures |ids| == |rs|
    ensures forall k :: 0 <= k < |rs| ==> ids[k] == stateMap[rs[k]]
  {
    ids := [];
    for i := 0 to |rs|
      invariant |ids| == i
      invariant forall k :: 0 <= k < i ==> ids[k] == stateMap[rs[k]]
    {
      ids := ids + [stateMap[rs[i]]];
    }
  }

  lemma AcceptStatesNumbered(a: Automaton, stateMap: map<StateRef, int>)
    requires Valid(a) && NumbersStates(a, stateMap)
    ensures forall k :: 0 <= k < |AcceptStates(a, a.states)| ==> AcceptStates(a, a.states)[k] in stateMap
  {
    var acc := AcceptStates(a, a.states);
    forall k | 0 <= k < |acc| ensures acc[k] in stateMap {
      assert acc[k] in acc;
    }
  }

  lemma AcceptIdsByLookup(a: Automaton, stateMap: map<StateRef, int>, ids: seq<int>)
    requires Valid(a) && NumbersStates(a, stateMap)
    requires |ids| == |AcceptStates(a, a.states)|
    requires forall k :: 0 <= k < |ids| ==> AcceptStates(a, a.states)[k] in stateMap
    requires forall k :: 0 <= k < |ids| ==> ids[k] == stateMap[AcceptStates(a, a.states)[k]]
    ensures ids == AcceptIds(a)
  {
    var acc := AcceptStates(a, a.states);
    forall k | 0 <= k < |ids| ensures ids[k] == AcceptIds(a)[k] {
      assert acc[k] in acc;
    }
  }

  /** The nested loop over states and their transitions, before `List.sort`. */
  method BuildTransitionTable(a: Automaton, stateMap: map<StateRef, int>) returns (transitionTable: seq<TransitionEntry>)
    requires Valid(a) && NumbersStates(a, stateMap)
    ensures transitionTable == EntriesUpTo(a, |a.states|)
  {
    transitionTable := [];
    for i := 0 to |a.states|
      invariant transitionTable == EntriesUpTo(a, i)
    {
      transitionTable := AddStateEntries(a, stateMap, a.states[i], transitionTable);
    }
  }

  /** The inner loop: one entry per transition of the state, appended in order. */
  method AddStateEntries(a: Automaton, stateMap: map<StateRef, int>, state: StateRef, table: seq<TransitionEntry>)
    returns (transitionTable: seq<TransitionEntry>)
    requires Valid(a) && NumbersStates(a, stateMap) && state in a.info
    ensures transitionTable == table + StateEntries(a, state)
  {
    transitionTable := table;
    var currStateId := stateMap[state];
    var ts := a.info[state].transitions;
    ghost var entries := StateEntries(a, state);
    for k := 0 to |ts|
      invariant transitionTable == table + entries[..k]
    {
      var t := ts[k];
      var nextStateId := stateMap[t.dest];
      assert entries[k] == TransitionEntry(currStateId, t.min, t.max, nextStateId);
      assert entries[..k + 1] == entries[..k] + [entries[k]];
      transitionTable := transitionTable + [TransitionEntry(currStateId, t.min, t.max, nextStateId)];
    }
    assert entries[..|ts|] == entries;
  }

  // ---- what the serialized object says about the automaton ----

  lemma StartStateIsInitialId(a: Automaton, regex: string)
    requires Valid(a)
    ensures Serialized(a, regex).startState == Id(a, a.initial)
    ensures 1 <= Serialized(a, regex).startState <= |a.states|
  {
  }

  lemma IdInjective(a: Automaton, r: StateRef, q: StateRef)
    requires r in a.states && q in a.states && Id(a, r) == Id(a, q)
    ensures r == q
  {
    assert a.states[Id(a, r) - 1] == r;
  }

  /** The accepting ids are distinct, so `match_states` is strictly ascending. */
  lemma MatchStatesAscending(a: Automaton)
    requires Valid(a)
    ensures Sorting.StrictlyAscending(MatchStates(a))
  {
    var acc := AcceptStates(a, a.states);
    var ids := AcceptIds(a);
    forall i, j | 0 <= i < j < |ids| ensures ids[i] != ids[j] {
      AcceptStatesDistinct(a, a.states, i, j);
      assert acc[i] in acc && acc[j] in acc;
      if ids[i] == ids[j] {
        IdInjective(a, acc[i], acc[j]);
      }
    }
    Sorting.SortDistinct(ids, MatchKey);
  }

  /** `match_states` holds exactly the ids of the accepting states. */
  lemma MatchStatesExact(a: Automaton)
    requires Valid(a)
    ensures forall k :: k in MatchStates(a) <==>
      exists r :: r in a.states && a.info[r].accept && Id(a, r) == k
  {
    SortedSameElements(AcceptIds(a), MatchKey);
    AcceptIdsExact(a);
  }

  lemma SortedSameElements(s: seq<int>, key: int -> int)
    ensures forall k :: k in Sorting.SortByKey(s, key) <==> k in s
  {
    var m := Sorting.SortByKey(s, key);
    forall k ensures k in m <==> k in s {
      assert k in m <==> k in multiset(m);
      assert k in s <==> k in multiset(s);
    }
  }

  lemma AcceptIdsExact(a: Automaton)
    requires Valid(a)
    ensures forall k :: k in AcceptIds(a) <==> exists r :: r in a.states && a.info[r].accept && Id(a, r) == k
  {
    forall k ensures k in AcceptIds(a) <==> exists r :: r in a.states && a.info[r].accept && Id(a, r) == k {
      if k in AcceptIds(a) {
        AcceptIdIsAccepting(a, k);
      }
      if exists r :: r in a.states && a.info[r].accept && Id(a, r) == k {
        var r :| r in a.states && a.info[r].accept && Id(a, r) == k;
        AcceptingHasId(a, r);
      }
    }
  }

  lemma AcceptIdIsAccepting(a: Automaton, k: int)
    requires Valid(a) && k in AcceptIds(a)
    ensures exists r :: r in a.states && a.info[r].accept && Id(a, r) == k
  {
    var acc := AcceptStates(a, a.states);
    var i :| 0 <= i < |AcceptIds(a)| && AcceptIds(a)[i] == k;
    assert acc[i] in acc;
  }

  lemma AcceptingHasId(a: Automaton, r: StateRef)
    requires Valid(a) && r in a.states && a.info[r].accept
    ensures Id(a, r) in AcceptIds(a)
  {
    var acc := AcceptStates(a, a.states);
    assert r in acc;
    var i :| 0 <= i < |acc| && acc[i] == r;
    assert AcceptIds(a)[i] == Id(a, r);
  }

  lemma {:induction false} AcceptStatesDistinct(a: Automaton, rs: seq<StateRef>, i: int, j: int)
    requires forall x :: 0 <= x < |rs| ==> rs[x] in a.info
    requires Distinct(rs)
    requires 0 <= i < j < |AcceptStates(a, rs)|
    ensures AcceptStates(a, rs)[i] != AcceptStates(a, rs)[j]
    decreases |rs|
  {
    var acc := AcceptStates(a, rs);
    var rest := AcceptStates(a, rs[1..]);
    assert Distinct(rs[1..]);
    if a.info[rs[0]].accept {
      assert acc == [rs[0]] + rest;
      if i == 0 {
        assert acc[j] == rest[j - 1] && rest[j - 1] in rest;
        assert rest[j - 1] in rs[1..];
      } else {
        AcceptStatesDistinct(a, rs[1..], i - 1, j - 1);
      }
    } else {
      assert acc == rest;
      AcceptStatesDistinct(a, rs[1..], i, j);
    }
  }

  /** Whatever order the accepting states are listed in, `match_states` comes out the same. */
  lemma MatchStatesIndependentOfOrder(a: Automaton, listed: seq<int>)
    requires Valid(a)
    requires forall i, j :: 0 <= i < j < |listed| ==> listed[i] != listed[j]
    requires forall k :: k in listed <==> k in AcceptIds(a)
    ensures Sorting.SortByKey(listed, MatchKey) == MatchStates(a)
  {
    var x := Sorting.SortByKey(listed, MatchKey);
    var y := MatchStates(a);
    Sorting.SortDistinct(listed, MatchKey);
    MatchStatesAscending(a);
    SortedSameElements(listed, MatchKey);
    SortedSameElements(AcceptIds(a), MatchKey);
    Sorting.StrictlyAscendingUnique(x, y);
  }

  /** The number of transitions of the first n listed states. */
  function TransitionCount(a: Automaton, n: nat): nat
    requires Valid(a) && n <= |a.states|
  {
    if n == 0 then 0 else TransitionCount(a, n - 1) + |a.info[a.states[n - 1]].transitions|
  }

  function EntryFor(a: Automaton, i: nat, k: nat): TransitionEntry
    requires Valid(a) && i < |a.states| && k < |a.info[a.states[i]].transitions|
  {
    var t := a.info[a.states[i]].transitions[k];
    TransitionEntry(i + 1, t.min, t.max, Id(a, t.dest))
  }

  /** Where the k-th transition of the i-th listed state lands in the unsorted table. */
  function Slot(a: Automaton, i: nat, k: nat): nat
    requires Valid(a) && i <= |a.states|
  {
    TransitionCount(a, i) + k
  }

  /**
   * Exactly one entry per (state, transition) pair: the unsorted table has
   * one slot per transition, and the k-th transition of the i-th state sits
   * at its own slot.
   */
  lemma {:induction false} EntriesOnePerTransition(a: Automaton, n: nat)
    requires Valid(a) && n <= |a.states|
    ensures |EntriesUpTo(a, n)| == TransitionCount(a, n)
    ensures forall i: nat, k: nat :: i < n && k < |a.info[a.states[i]].transitions| ==>
      Slot(a, i, k) < TransitionCount(a, n) && EntriesUpTo(a, n)[Slot(a, i, k)] == EntryFor(a, i, k)
    ensures forall i: nat, k: nat, i2: nat, k2: nat ::
      (i < n && k < |a.info[a.states[i]].transitions| &&
       i2 < n && k2 < |a.info[a.states[i2]].transitions| &&
       Slot(a, i, k) == Slot(a, i2, k2)) ==> i == i2 && k == k2
  {
    EntriesLength(a, n);
    forall i: nat, k: nat | i < n && k < |a.info[a.states[i]].transitions|
      ensures Slot(a, i, k) < TransitionCount(a, n) && EntriesUpTo(a, n)[Slot(a, i, k)] == EntryFor(a, i, k)
    {
      EntryAt(a, n, i, k);
    }
  }

  lemma {:induction false} EntriesLength(a: Automaton, n: nat)
    requires Valid(a) && n <= |a.states|
    ensures |EntriesUpTo(a, n)| == TransitionCount(a, n)
  {
    if n > 0 {
      EntriesLength(a, n - 1);
    }
  }

  lemma {:induction false} EntryAt(a: Automaton, n: nat, i: nat, k: nat)
    requires Valid(a) && i < n <= |a.states| && k < |a.info[a.states[i]].transitions|
    ensures TransitionCount(a, i) + k < TransitionCount(a, n) == |EntriesUpTo(a, n)|
    ensures EntriesUpTo(a, n)[TransitionCount(a, i) + k] == EntryFor(a, i, k)
    decreases n, 1
  {
    if i < n - 1 {
      EntryAtEarlier(a, n, i, k);
    } else {
      EntryAtLast(a, n, k);
    }
  }

  lemma {:induction false} EntryAtEarlier(a: Automaton, n: nat, i: nat, k: nat)
    requires Valid(a) && i < n - 1 && n <= |a.states| && k < |a.info[a.states[i]].transitions|
    ensures TransitionCount(a, i) + k < TransitionCount(a, n) == |EntriesUpTo(a, n)|
    ensures EntriesUpTo(a, n)[TransitionCount(a, i) + k] == EntryFor(a, i, k)
    decreases n, 0
  {
    EntriesLength(a, n);
    EntriesLength(a, n - 1);
    var prev := EntriesUpTo(a, n - 1);
    var last := StateEntries(a, a.states[n - 1]);
    assert EntriesUpTo(a, n) == prev + last;
    EntryAt(a, n - 1, i, k);
    IndexLeft(prev, last, TransitionCount(a, i) + k);
  }

  lemma EntryAtLast(a: Automaton, n: nat, k: nat)
    requires Valid(a) && 0 < n <= |a.states| && k < |a.info[a.states[n - 1]].transitions|
    ensures TransitionCount(a, n - 1) + k < TransitionCount(a, n) == |EntriesUpTo(a, n)|
    ensures EntriesUpTo(a, n)[TransitionCount(a, n - 1) + k] == EntryFor(a, n - 1, k)
  {
    EntriesLength(a, n);
    EntriesLength(a, n - 1);
    var prev := EntriesUpTo(a, n - 1);
    var last := StateEntries(a, a.states[n - 1]);
    assert EntriesUpTo(a, n) == prev + last;
    StateEntryAt(a, n - 1, k);
    IndexRight(prev, last, k);
  }

  lemma StateEntryAt(a: Automaton, i: nat, k: nat)
    requires Valid(a) && i < |a.states| && k < |a.info[a.states[i]].transitions|
    ensures k < |StateEntries(a, a.states[i])| && StateEntries(a, a.states[i])[k] == EntryFor(a, i, k)
  {
    IdAt(a, i);
  }

  lemma IndexLeft(x: seq<TransitionEntry>, y: seq<TransitionEntry>, m: nat)
    requires m < |x|
    ensures (x + y)[m] == x[m]
  {
  }

  lemma IndexRight(x: seq<TransitionEntry>, y: seq<TransitionEntry>, k: nat)
    requires k < |y|
    ensures (x + y)[|x| + k] == y[k]
  {
  }

  /** Every entry's ids lie in 1..n and its range is that of a transition. */
  lemma {:induction false} EntriesInRange(a: Automaton, n: nat)
    requires Valid(a) && n <= |a.states|
    ensures forall e :: e in EntriesUpTo(a, n) ==>
      1 <= e.currState <= n && 1 <= e.nextState <= |a.states| && 0 <= e.rangeStart <= e.rangeEnd <= MaxChar
  {
    if n > 0 {
      EntriesInRange(a, n - 1);
      var r := a.states[n - 1];
      IdAt(a, n - 1);
      var last := StateEntries(a, r);
      assert EntriesUpTo(a, n) == EntriesUpTo(a, n - 1) + last;
      forall e | e in last
        ensures 1 <= e.currState <= n && 1 <= e.nextState <= |a.states| && 0 <= e.rangeStart <= e.rangeEnd <= MaxChar
      {
        var k :| 0 <= k < |last| && last[k] == e;
        var t := a.info[r].transitions[k];
        assert t.dest in a.info;
        assert e == TransitionEntry(n, t.min, t.max, Id(a, t.dest));
      }
    }
  }

  /** For entries whose range start is a char, the key order is the comparator's order. */
  lemma EntryKeyIsLexicographic(x: TransitionEntry, y: TransitionEntry)
    requires 0 <= x.rangeStart <= MaxChar && 0 <= y.rangeStart <= MaxChar
    ensures EntryKey(x) <= EntryKey(y) <==>
      x.currState < y.currState || (x.currState == y.currState && x.rangeStart <= y.rangeStart)
    ensures EntryKey(x) == EntryKey(y) <==> x.currState == y.currState && x.rangeStart == y.rangeStart
  {
    if x.currState < y.currState {
      assert EntryKey(x) <= (y.currState - 1) * 0x10000 + MaxChar;
    } else if x.currState > y.currState {
      assert EntryKey(y) <= (x.currState - 1) * 0x10000 + MaxChar;
    }
  }

  /**
   * The written table is a permutation of the one-per-transition list, with
   * entries ordered by (current state, range start); by EntryKeyIsLexicographic
   * a key class is one (current state, range start) pair, and each class
   * keeps its list order.
   */
  lemma TableSortedPermutation(a: Automaton)
    requires Valid(a)
    ensures multiset(Table(a)) == multiset(EntriesUpTo(a, |a.states|))
    ensures forall i, j :: 0 <= i < j < |Table(a)| ==>
      Table(a)[i].currState < Table(a)[j].currState ||
      (Table(a)[i].currState == Table(a)[j].currState && Table(a)[i].rangeStart <= Table(a)[j].rangeStart)
    ensures forall k :: Sorting.WithKey(Table(a), EntryKey, k) == Sorting.WithKey(EntriesUpTo(a, |a.states|), EntryKey, k)
  {
    TableOrdered(a);
    forall k ensures Sorting.WithKey(Table(a), EntryKey, k) == Sorting.WithKey(EntriesUpTo(a, |a.states|), EntryKey, k) {
      Sorting.SortIsStable(EntriesUpTo(a, |a.states|), EntryKey, k);
    }
  }

  lemma TableOrdered(a: Automaton)
    requires Valid(a)
    ensures forall i, j :: 0 <= i < j < |Table(a)| ==>
      Table(a)[i].currState < Table(a)[j].currState ||
      (Table(a)[i].currState == Table(a)[j].currState && Table(a)[i].rangeStart <= Table(a)[j].rangeStart)
  {
    var es := EntriesUpTo(a, |a.states|);
    var t := Table(a);
    EntriesInRange(a, |a.states|);
    forall i, j | 0 <= i < j < |t|
      ensures t[i].currState < t[j].currState || (t[i].currState == t[j].currState && t[i].rangeStart <= t[j].rangeStart)
    {
      OrderedPair(es, t, i, j);
    }
  }

  lemma OrderedPair(es: seq<TransitionEntry>, t: seq<TransitionEntry>, i: nat, j: nat)
    requires t == Sorting.SortByKey(es, EntryKey) && i < j < |t|
    requires forall e :: e in es ==> 0 <= e.rangeStart <= MaxChar
    ensures t[i].currState < t[j].currState || (t[i].currState == t[j].currState && t[i].rangeStart <= t[j].rangeStart)
  {
    assert t[i] in multiset(es) && t[j] in multiset(es);
    EntryKeyIsLexicographic(t[i], t[j]);
  }
}
