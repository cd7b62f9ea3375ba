/**
 * The monitor's runtime DFA (monitor/src/lib.rs): the transition table of
 * byte-range descriptors, the step function, the automaton predicates, the
 * u32 form used for the binary cache, and the construction of a table from
 * the JSON transition list.
 */
module Monitor {
  import opened Wrappers
  import opened Bytes
  import Sorting

  /** The largest index a regex_automata StateID can hold (i32::MAX - 1). */
  const MaxStateId: int := 0x7FFF_FFFE

  type StateId = n: int | 0 <= n <= MaxStateId

  type U32 = n: int | 0 <= n < 0x1_0000_0000

  /** The state that `Dfa::new` reserves as the dead state. */
  const DeadState: StateId := 0

  datatype TransitionDesc =
    | Match(byte: Byte, next: StateId)           // the input byte equals `byte`
    | Range(lo: Byte, hi: Byte, next: StateId)   // lo <= input byte <= hi

  type TransitionTable = map<StateId, seq<TransitionDesc>>

  datatype Dfa = Dfa(start: StateId, matchStates: set<StateId>, table: TransitionTable, dead: StateId)

  /** Why a construction panics. */
  datatype Panic =
    | IdOutOfRange       // `StateID::must` was given an index above MaxStateId
    | DeadStateDefined   // the table already had an entry for the dead state
    | StateMissing       // next_state was asked about a state without an entry

  /** The behaviour `Dfa::new` gives the dead state: every byte loops back. */
  const DeadBehaviour: seq<TransitionDesc> := [Range(MinByte, MaxByte, DeadState)]

  /** `Dfa::new`: reserves state 0 as the dead state, asserting it is still free. */
  function New(start: StateId, matchStates: set<StateId>, table: TransitionTable): (r: Result<Dfa, Panic>)
    ensures r.Failure? <==> DeadState in table
    ensures r.Failure? ==> r.error == DeadStateDefined
    ensures r.Success? ==>
      && r.value.dead == DeadState
      && r.value.start == start
      && r.value.matchStates == matchStates
      && DeadState in r.value.table && r.value.table[DeadState] == DeadBehaviour
      && (forall k :: k in r.value.table <==> k == DeadState || k in table)
      && (forall k :: k in table ==> r.value.table[k] == table[k])
  {
    if DeadState in table then Failure(DeadStateDefined)
    else Success(Dfa(start, matchStates, table[DeadState := DeadBehaviour], DeadState))
  }

  predicate Matches(d: TransitionDesc, b: Byte) {
    match d
    case Match(x, _) => b == x
    case Range(lo, hi, _) => lo <= b <= hi
  }

  /** The target of the first descriptor matching b, or the dead state. */
  function Lookup(ds: seq<TransitionDesc>, b: Byte, dead: StateId): (r: StateId)
    ensures r == dead || exists i :: 0 <= i < |ds| && Matches(ds[i], b) && r == ds[i].next
  {
    if ds == [] then dead
    else if Matches(ds[0], b) then ds[0].next
    else
      var r := Lookup(ds[1..], b, dead);
      assert r != dead ==> exists i :: 0 <= i < |ds[1..]| && Matches(ds[1..][i], b) && r == ds[1..][i].next;
      assert forall i :: 0 <= i < |ds[1..]| ==> ds[1..][i] == ds[i + 1];
      r
  }

  /** Lookup returns the target of the first match in list order. */
  lemma {:induction false} LookupIsFirstMatch(ds: seq<TransitionDesc>, b: Byte, dead: StateId, i: int)
    requires 0 <= i < |ds| && Matches(ds[i], b)
    requires forall j :: 0 <= j < i ==> !Matches(ds[j], b)
    ensures Lookup(ds, b, dead) == ds[i].next
  {
    if i > 0 {
      LookupIsFirstMatch(ds[1..], b, dead, i - 1);
    }
  }

  /** Without a matching descriptor, Lookup falls back to the dead state. */
  lemma {:induction false} LookupNoMatch(ds: seq<TransitionDesc>, b: Byte, dead: StateId)
    requires forall j :: 0 <= j < |ds| ==> !Matches(ds[j], b)
    ensures Lookup(ds, b, dead) == dead
  {
    if ds != [] {
      LookupNoMatch(ds[1..], b, dead);
    }
  }

  /**
   * `Automaton::next_state` as a value: the target of the first matching
   * descriptor, the dead state when none matches, and the panic of the
   * `expect` when `current` has no entry.
   */
  function Step(dfa: Dfa, current: StateId, input: Byte): (r: Result<StateId, Panic>)
    ensures r.Failure? <==> current !in dfa.table
    ensures r.Failure? ==> r.error == StateMissing
  {
    if current !in dfa.table then Failure(StateMissing)
    else Success(Lookup(dfa.table[current], input, dfa.dead))
  }

  /**
   * `Automaton::next_state`: scans the current state's descriptors in order
   * and returns the first hit; the fallback is the dead state.
   */
  method NextState(dfa: Dfa, current: StateId, input: Byte) returns (r: Result<StateId, Panic>)
    ensures r == Step(dfa, current, input)
    ensures r.Failure? <==> current !in dfa.table
    ensures r.Success? ==>
      (forall j :: 0 <= j < |dfa.table[current]| ==> !Matches(dfa.table[current][j], input))
      ==> r.value == dfa.dead
    ensures r.Success? ==>
      forall i :: (0 <= i < |dfa.table[current]| && Matches(dfa.table[current][i], input)
                   && (forall j :: 0 <= j < i ==> !Matches(dfa.table[current][j], input)))
                  ==> r.value == dfa.table[current][i].next
  {
    if current !in dfa.table {
      return Failure(StateMissing);
    }
    var descs := dfa.table[current];
    var i := 0;
    while i < |descs|
      invariant 0 <= i <= |descs|
      invariant forall j :: 0 <= j < i ==> !Matches(descs[j], input)
    {
      match descs[i] {
        case Match(byte, target) =>
          if input == byte {
            LookupIsFirstMatch(descs, input, dfa.dead, i);
            return Success(target);
          }
        case Range(lo, hi, target) =>
          if lo <= input && input <= hi {
            LookupIsFirstMatch(descs, input, dfa.dead, i);
            return Success(target);
          }
      }
      i := i + 1;
    }
    LookupNoMatch(descs, input, dfa.dead);
    r := Success(dfa.dead);
  }

  /** `Automaton::next_state_unchecked` forwards to next_state. */
  method NextStateUnchecked(dfa: Dfa, current: StateId, input: Byte) returns (r: Result<StateId, Panic>)
    ensures r == Step(dfa, current, input)
  {
    r := NextState(dfa, current, input);
  }

  // The predicates of the Automaton implementation.

  predicate IsDeadState(dfa: Dfa, id: StateId) { id == dfa.dead }

  predicate IsMatchState(dfa: Dfa, id: StateId) { id in dfa.matchStates }

  predicate IsStartState(dfa: Dfa, id: StateId) { id == dfa.start }

  predicate IsSpecialState(dfa: Dfa, id: StateId) {
    IsDeadState(dfa, id) || IsMatchState(dfa, id) || IsStartState(dfa, id)
  }

  /** The monitor only ever searches for one pattern. */
  function PatternLen(dfa: Dfa): nat { 1 }

  function MatchLen(dfa: Dfa, id: StateId): nat {
    if IsMatchState(dfa, id) then 1 else 0
  }

  predicate HasEmpty(dfa: Dfa) { IsMatchState(dfa, dfa.start) }

  /** Every descriptor target and the dead state have an entry. */
  ghost predicate Closed(dfa: Dfa) {
    && dfa.dead in dfa.table
    && forall k, i :: k in dfa.table && 0 <= i < |dfa.table[k]| ==> dfa.table[k][i].next in dfa.table
  }

  /** The state reached from s by stepping through w, in a closed table. */
  ghost function Walk(dfa: Dfa, s: StateId, w: seq<Byte>): (r: StateId)
    requires Closed(dfa) && s in dfa.table
    ensures r in dfa.table
    decreases |w|
  {
    if w == [] then s else Walk(dfa, Lookup(dfa.table[s], w[0], dfa.dead), w[1..])
  }

  /** Stepping through w with next_state from s, in any table: the first missing entry panics. */
  ghost function Steps(dfa: Dfa, s: StateId, w: seq<Byte>): Result<StateId, Panic>
    decreases |w|
  {
    if w == [] then Success(s)
    else match Step(dfa, s, w[0])
      case Failure(e) => Failure(e)
      case Success(t) => Steps(dfa, t, w[1..])
  }

  /** In a closed table a walk from a state with an entry never panics, and ends where Walk does. */
  lemma {:induction false} ClosedStepsNeverPanic(dfa: Dfa, s: StateId, w: seq<Byte>)
    requires Closed(dfa) && s in dfa.table
    ensures Steps(dfa, s, w) == Success(Walk(dfa, s, w))
    decreases |w|
  {
    if w != [] {
      ClosedStepsNeverPanic(dfa, Lookup(dfa.table[s], w[0], dfa.dead), w[1..]);
    }
  }

  /** A non-empty walk from a state without an entry panics at once. */
  lemma MissingStatePanics(dfa: Dfa, s: StateId, w: seq<Byte>)
    requires s !in dfa.table && w != []
    ensures Steps(dfa, s, w) == Failure(StateMissing)
  {
  }

  /** From the dead state of a constructed DFA every byte leads back to it. */
  lemma DeadStateLoops(dfa: Dfa, b: Byte)
    requires dfa.dead == DeadState && DeadState in dfa.table && dfa.table[DeadState] == DeadBehaviour
    ensures Lookup(dfa.table[DeadState], b, dfa.dead) == DeadState
  {
  }

  /** ... and so does every input word. */
  lemma {:induction false} DeadStateAbsorbs(dfa: Dfa, w: seq<Byte>)
    requires Closed(dfa)
    requires dfa.dead == DeadState && dfa.table[DeadState] == DeadBehaviour
    ensures Walk(dfa, DeadState, w) == DeadState
    decreases |w|
  {
    if w != [] {
      DeadStateLoops(dfa, w[0]);
      DeadStateAbsorbs(dfa, w[1..]);
    }
  }

  //
  // The u32 form of the DFA (SerDfa) used by the binary cache
  //

  datatype Std = SMatch(byte: Byte, next: U32) | SRange(lo: Byte, hi: Byte, next: U32)

  datatype SerDfa = SerDfa(start: U32, matchStates: set<U32>, table: map<U32, seq<Std>>, dead: U32)

  function ToStd(d: TransitionDesc): (s: Std)
    ensures s.next == d.next
  {
    match d
    case Match(b, sid) => SMatch(b, sid)
    case Range(b1, b2, sid) => SRange(b1, b2, sid)
  }

  function ToStds(ds: seq<TransitionDesc>): (r: seq<Std>)
    ensures |r| == |ds| && forall i :: 0 <= i < |ds| ==> r[i] == ToStd(ds[i])
  {
    seq(|ds|, i requires 0 <= i < |ds| => ToStd(ds[i]))
  }

  predicate FitsStateId(n: int) { 0 <= n <= MaxStateId }

  /** `StateID::must` on a descriptor's target: fails above MaxStateId. */
  function FromStd(s: Std): (r: Option<TransitionDesc>)
    ensures r.Some? <==> FitsStateId(s.next)
    ensures r.Some? ==> ToStd(r.value) == s
  {
    if !FitsStateId(s.next) then None
    else match s
      case SMatch(b, sid) => Some(Match(b, sid))
      case SRange(b1, b2, sid) => Some(Range(b1, b2, sid))
  }

  predicate StdsFit(ss: seq<Std>) {
    forall i :: 0 <= i < |ss| ==> FitsStateId(ss[i].next)
  }

  function FromStds(ss: seq<Std>): (r: seq<TransitionDesc>)
    requires StdsFit(ss)
    ensures ToStds(r) == ss
  {
    seq(|ss|, i requires 0 <= i < |ss| => FromStd(ss[i]).value)
  }

  /** Every id of a SerDfa can be turned back into a StateID. */
  predicate SerFits(s: SerDfa) {
    && FitsStateId(s.start)
    && FitsStateId(s.dead)
    && (forall m :: m in s.matchStates ==> FitsStateId(m))
    && (forall k :: k in s.table ==> FitsStateId(k) && StdsFit(s.table[k]))
  }

  /** `SerDfa::from`: the same DFA with u32 ids. */
  function SerOf(dfa: Dfa): (s: SerDfa)
    ensures s.start == dfa.start && s.dead == dfa.dead
    ensures forall m: int :: m in s.matchStates <==> m in dfa.matchStates
    ensures forall k: int :: k in s.table <==> k in dfa.table
    ensures forall k :: k in dfa.table ==> s.table[k] == ToStds(dfa.table[k])
    ensures SerFits(s)
  {
    SerDfa(dfa.start, (set m: U32 | m in dfa.matchStates),
           map k: U32 | k in dfa.table :: ToStds(dfa.table[k]), dfa.dead)
  }

  /** `SerDfa::to_dfa`: back to StateIDs; `StateID::must` panics on ids above MaxStateId. */
  function DfaOf(s: SerDfa): (r: Option<Dfa>)
    ensures r.Some? <==> SerFits(s)
    ensures r.Some? ==>
      && r.value.start == s.start && r.value.dead == s.dead
      && (forall m: int :: m in r.value.matchStates <==> m in s.matchStates)
      && (forall k: int :: k in r.value.table <==> k in s.table)
      && (forall k :: k in r.value.table ==> ToStds(r.value.table[k]) == s.table[k])
  {
    if !SerFits(s) then None
    else Some(Dfa(s.start, (set m: StateId | m in s.matchStates),
                  map k: StateId | k in s.table :: FromStds(s.table[k]), s.dead))
  }

  lemma {:induction false} ToStdsInjective(a: seq<TransitionDesc>, b: seq<TransitionDesc>)
    requires ToStds(a) == ToStds(b)
    ensures a == b
  {
    assert |a| == |b|;
    forall i | 0 <= i < |a| ensures a[i] == b[i] {
      assert ToStd(a[i]) == ToStds(a)[i] == ToStds(b)[i] == ToStd(b[i]);
    }
  }

  /** `to_dfa(from(d))` gives back d: ids, match set and every descriptor list in order. */
  lemma RoundTrip(dfa: Dfa)
    ensures DfaOf(SerOf(dfa)) == Some(dfa)
  {
    var s := SerOf(dfa);
    assert SerFits(s);
    var d := DfaOf(s).value;
    assert d.start == dfa.start && d.dead == dfa.dead;
    assert d.matchStates == dfa.matchStates;
    assert d.table.Keys == dfa.table.Keys;
    forall k | k in d.table ensures d.table[k] == dfa.table[k] {
      ToStdsInjective(d.table[k], dfa.table[k]);
    }
    assert d.table == dfa.table;
    assert d == dfa;
  }

  /** `SerDfa::from`, building the u32 table in a loop over the entries. */
  method FromDfa(dfa: Dfa) returns (s: SerDfa)
    ensures s == SerOf(dfa)
  {
    var newTable: map<U32, seq<Std>> := map[];
    var todo := dfa.table.Keys;
    while todo != {}
      invariant todo <= dfa.table.Keys
      invariant forall k: int :: k in newTable <==> k in dfa.table && k !in todo
      invariant forall k :: k in newTable ==> newTable[k] == ToStds(dfa.table[k])
      decreases todo
    {
      var key :| key in todo;
      newTable := newTable[key := ToStds(dfa.table[key])];
      todo := todo - {key};
    }
    s := SerDfa(dfa.start, (set m: U32 | m in dfa.matchStates), newTable, dfa.dead);
  }

  /** `SerDfa::to_dfa`, building the StateID table in a loop over the entries. */
  method ToDfa(s: SerDfa) returns (r: Option<Dfa>)
    ensures r == DfaOf(s)
  {
    if !FitsStateId(s.start) || !FitsStateId(s.dead) {
      return None;
    }
    var newTable: TransitionTable := map[];
    var todo := s.table.Keys;
    while todo != {}
      invariant todo <= s.table.Keys
      invariant forall k: int :: k in newTable <==> k in s.table && k !in todo
      invariant forall k :: k in newTable ==> StdsFit(s.table[k]) && newTable[k] == FromStds(s.table[k])
      invariant forall k :: k in s.table && k !in todo ==> FitsStateId(k) && StdsFit(s.table[k])
      decreases todo
    {
      var key :| key in todo;
      if !FitsStateId(key) || !StdsFit(s.table[key]) {
        return None;
      }
      newTable := newTable[key := FromStds(s.table[key])];
      todo := todo - {key};
    }
    if exists m :: m in s.matchStates && !FitsStateId(m) {
      return None;
    }
    assert SerFits(s);
    assert newTable == map k: StateId | k in s.table :: FromStds(s.table[k]);
    r := Some(Dfa(s.start, (set m: StateId | m in s.matchStates), newTable, s.dead));
  }

  //
  // Construction from the JSON transition list
  //

  /** One element of the JSON `transition_table` (the u8 bounds are checked by the JSON parser). */
  datatype JsonTransition = JsonTransition(currState: nat, rangeStart: Byte, rangeEnd: Byte, nextState: nat)

  datatype JsonDfa = JsonDfa(startState: nat, matchStates: seq<nat>, transitionTable: seq<JsonTransition>)

  predicate IdsFit(js: seq<JsonTransition>) {
    forall i :: 0 <= i < |js| ==> FitsStateId(js[i].currState) && FitsStateId(js[i].nextState)
  }

  /** A JSON entry as a descriptor: a one-byte range becomes Match. */
  function Describe(t: JsonTransition): (d: TransitionDesc)
    requires FitsStateId(t.nextState)
    ensures d.Match? <==> t.rangeStart == t.rangeEnd
    ensures d.next == t.nextState
    ensures forall b: Byte :: Matches(d, b) <==> t.rangeStart <= b <= t.rangeEnd
  {
    if t.rangeStart == t.rangeEnd then Match(t.rangeStart, t.nextState)
    else Range(t.rangeStart, t.rangeEnd, t.nextState)
  }

  /** The descriptors that the entries for state k contribute, in input order. */
  function DescsFor(js: seq<JsonTransition>, k: int): seq<TransitionDesc>
    requires IdsFit(js)
  {
    if js == [] then []
    else
      var last := js[|js| - 1];
      DescsFor(js[..|js| - 1], k) + (if last.currState == k then [Describe(last)] else [])
  }

  function CurrStates(js: seq<JsonTransition>): set<nat> {
    set i | 0 <= i < |js| :: js[i].currState
  }

  function NextStates(js: seq<JsonTransition>): set<nat> {
    set i | 0 <= i < |js| :: js[i].nextState
  }

  /** The table convert_json_transitions builds: an entry for every current and every next state. */
  function TableOf(js: seq<JsonTransition>): (t: TransitionTable)
    requires IdsFit(js)
  {
    map k: StateId | k in CurrStates(js) + NextStates(js) :: DescsFor(js, k)
  }

  /**
   * `convert_json_transitions`: the first loop appends one descriptor per
   * entry to its current state's list; the second gives every next state
   * that still has no entry an empty list. A `StateID::must` on an id above
   * MaxStateId panics (None).
   */
  method ConvertJsonTransitions(js: seq<JsonTransition>) returns (r: Option<TransitionTable>)
    ensures r.Some? <==> IdsFit(js)
    ensures r.Some? ==> r.value == TableOf(js)
    ensures r.Some? ==> forall k: int :: k in r.value <==> k in CurrStates(js) || k in NextStates(js)
    ensures r.Some? ==> forall k :: k in r.value ==> r.value[k] == DescsFor(js, k)
  {
    var table: TransitionTable := map[];
    var nexts: set<StateId> := {};
    for i := 0 to |js|
      invariant IdsFit(js[..i])
      invariant forall k: int :: k in table <==> k in CurrStates(js[..i])
      invariant forall k :: k in table ==> table[k] == DescsFor(js[..i], k)
      invariant forall k: int :: k in nexts <==> k in NextStates(js[..i])
    {
      var t := js[i];
      if !FitsStateId(t.currState) {
        NotFitAt(js, i);
        return None;
      }
      var descs := if t.currState in table then table[t.currState] else [];
      if !FitsStateId(t.nextState) {
        NotFitAt(js, i);
        return None;
      }
      PrefixStep(js, i);
      if t.currState !in table {
        DescsForAbsent(js[..i], t.currState);
      }
      nexts := nexts + {t.nextState};
      table := table[t.currState := descs + [Describe(t)]];
    }
    assert js[..|js|] == js;
    ghost var firstTable := table;
    var todo := nexts;
    while todo != {}
      invariant todo <= nexts
      invariant forall k: int :: k in table <==> k in CurrStates(js) || (k in nexts && k !in todo)
      invariant forall k :: k in firstTable ==> k in table && table[k] == firstTable[k]
      invariant forall k :: k in table ==> table[k] == DescsFor(js, k)
      decreases todo
    {
      var state :| state in todo;
      if state !in table {
        DescsForAbsent(js, state);
        table := table[state := []];
      }
      todo := todo - {state};
    }
    assert table == TableOf(js);
    r := Some(table);
  }

  /** What one more entry adds to the prefix's sets and lists. */
  lemma PrefixStep(js: seq<JsonTransition>, i: int)
    requires 0 <= i < |js| && IdsFit(js[..i]) && FitsStateId(js[i].currState) && FitsStateId(js[i].nextState)
    ensures IdsFit(js[..i + 1])
    ensures CurrStates(js[..i + 1]) == CurrStates(js[..i]) + {js[i].currState}
    ensures NextStates(js[..i + 1]) == NextStates(js[..i]) + {js[i].nextState}
    ensures forall k ::
      DescsFor(js[..i + 1], k) == DescsFor(js[..i], k) + (if js[i].currState == k then [Describe(js[i])] else [])
  {
    var p := js[..i + 1];
    assert p[..i] == js[..i];
    assert p[i] == js[i];
    assert forall j :: 0 <= j < i ==> p[j] == js[..i][j];
  }

  lemma NotFitAt(js: seq<JsonTransition>, i: int)
    requires 0 <= i < |js| && !(FitsStateId(js[i].currState) && FitsStateId(js[i].nextState))
    ensures !IdsFit(js)
  {
  }

  /** A state that is no entry's current state contributes no descriptors. */
  lemma {:induction false} DescsForAbsent(js: seq<JsonTransition>, k: int)
    requires IdsFit(js) && k !in CurrStates(js)
    ensures DescsFor(js, k) == []
  {
    if js != [] {
      var init := js[..|js| - 1];
      assert CurrStates(init) <= CurrStates(js) by {
        forall x | x in CurrStates(init) ensures x in CurrStates(js) {
          var i :| 0 <= i < |init| && init[i].currState == x;
          assert js[i] == init[i];
        }
      }
      assert js[|js| - 1].currState in CurrStates(js);
      DescsForAbsent(js[..|js| - 1], k);
    }
  }

  /**
   * Each JSON entry yields exactly one descriptor: entry i is the n-th
   * descriptor of its state's list, where n counts the earlier entries of
   * the same state, and the list has one element per entry of that state.
   */
  lemma {:induction false} DescsForPositions(js: seq<JsonTransition>, k: int)
    requires IdsFit(js)
    ensures |DescsFor(js, k)| == Sorting.CountWhere(js, (t: JsonTransition) => t.currState == k)
    ensures forall i :: 0 <= i < |js| && js[i].currState == k ==>
      var n := Sorting.CountWhere(js[..i], (t: JsonTransition) => t.currState == k);
      n < |DescsFor(js, k)| && DescsFor(js, k)[n] == Describe(js[i])
  {
    var p := (t: JsonTransition) => t.currState == k;
    if js != [] {
      var init, last := js[..|js| - 1], js[|js| - 1];
      DescsForPositions(init, k);
      assert js == init + [last];
      Sorting.CountAppend(init, [last], p);
      assert Sorting.CountWhere([last], p) == (if p(last) then 1 else 0) by {
        assert [last][1..] == [];
      }
      forall i | 0 <= i < |js| && js[i].currState == k
        ensures var n := Sorting.CountWhere(js[..i], p);
          n < |DescsFor(js, k)| && DescsFor(js, k)[n] == Describe(js[i])
      {
        if i < |js| - 1 {
          assert js[..i] == init[..i];
          assert js[i] == init[i];
        } else {
          assert js[..i] == init;
        }
      }
    }
  }

  /** Every descriptor target is some entry's next state. */
  lemma {:induction false} DescsForTargets(js: seq<JsonTransition>, k: int)
    requires IdsFit(js)
    ensures forall i :: 0 <= i < |DescsFor(js, k)| ==> DescsFor(js, k)[i].next in NextStates(js)
  {
    if js != [] {
      var init := js[..|js| - 1];
      DescsForTargets(init, k);
      assert NextStates(init) <= NextStates(js) by {
        forall x | x in NextStates(init) ensures x in NextStates(js) {
          var i :| 0 <= i < |init| && init[i].nextState == x;
          assert js[i] == init[i];
        }
      }
      assert js[|js| - 1].nextState in NextStates(js);
    }
  }

  predicate JsonIdsFit(j: JsonDfa) {
    && FitsStateId(j.startState)
    && (forall i :: 0 <= i < |j.matchStates| ==> FitsStateId(j.matchStates[i]))
    && IdsFit(j.transitionTable)
  }

  /**
   * `dfa_from_json` once the file is parsed: `StateID::must` on every id,
   * then `Dfa::new` on the converted table. State 0 already has an entry
   * (and the assertion fires) exactly when some entry's current or next
   * state is 0; a start state or match state 0 does not trip it.
   */
  function FromJson(j: JsonDfa): (r: Result<Dfa, Panic>)
    ensures r == Failure(IdOutOfRange) <==> !JsonIdsFit(j)
    ensures r == Failure(DeadStateDefined) <==>
      JsonIdsFit(j) && (0 in CurrStates(j.transitionTable) || 0 in NextStates(j.transitionTable))
    ensures r.Success? ==>
      && r.value.start == j.startState
      && (forall m: int :: m in r.value.matchStates <==> m in j.matchStates)
      && r.value.dead == DeadState
      && r.value.table == TableOf(j.transitionTable)[DeadState := DeadBehaviour]
  {
    if !JsonIdsFit(j) then Failure(IdOutOfRange)
    else
      var r := New(j.startState, set i | 0 <= i < |j.matchStates| :: j.matchStates[i] as StateId,
                   TableOf(j.transitionTable));
      assert r.Success? ==> r.value.table == TableOf(j.transitionTable)[DeadState := DeadBehaviour];
      r
  }

  /**
   * Because every next state gets an entry, a walk over a constructed DFA
   * never panics once it is in the table; the start state, however, has an
   * entry only when it is 0 or appears in some JSON entry.
   */
  lemma FromJsonClosed(j: JsonDfa)
    requires FromJson(j).Success?
    ensures Closed(FromJson(j).value)
    ensures FromJson(j).value.start in FromJson(j).value.table <==>
      j.startState == 0 || j.startState in CurrStates(j.transitionTable) + NextStates(j.transitionTable)
  {
    var dfa := FromJson(j).value;
    var js := j.transitionTable;
    forall k, i | k in dfa.table && 0 <= i < |dfa.table[k]| ensures dfa.table[k][i].next in dfa.table {
      if k != DeadState {
        DescsForTargets(js, k);
      }
    }
  }

  /**
   * As written, a start state that no entry mentions has no entry, so the
   * first byte of any line panics in next_state instead of leading to the
   * dead state.
   */
  lemma UnlistedStartPanics(j: JsonDfa, w: seq<Byte>)
    requires FromJson(j).Success? && w != []
    ensures FromJson(j).value.start !in FromJson(j).value.table ==>
      Steps(FromJson(j).value, FromJson(j).value.start, w) == Failure(StateMissing)
    ensures FromJson(j).value.start in FromJson(j).value.table ==>
      Steps(FromJson(j).value, FromJson(j).value.start, w).Success?
  {
    var d := FromJson(j).value;
    FromJsonClosed(j);
    if d.start in d.table {
      ClosedStepsNeverPanic(d, d.start, w);
    } else {
      MissingStatePanics(d, d.start, w);
    }
  }

  /**
   * The file written for the empty regex (one accepting start state, no
   * transitions) builds, yet next_state panics on the first byte of a line.
   */
  lemma EmptyRegexStartPanics(b: Byte)
    ensures FromJson(JsonDfa(1, [1], [])).Success?
    ensures Closed(FromJson(JsonDfa(1, [1], [])).value)
    ensures Steps(FromJson(JsonDfa(1, [1], [])).value, 1, [b]) == Failure(StateMissing)
  {
    var j := JsonDfa(1, [1], []);
    assert CurrStates(j.transitionTable) + NextStates(j.transitionTable) == {};
    FromJsonClosed(j);
    UnlistedStartPanics(j, [b]);
  }

  /** The table with an empty list for the start state when it has none, as next states get. */
  function WithStartEntry(dfa: Dfa): (r: Dfa)
    ensures r.start in r.table
  {
    if dfa.start in dfa.table then dfa else dfa.(table := dfa.table[dfa.start := []])
  }

  /** `dfa_from_json` with the start state given an entry like every next state. */
  function FromJsonWithStart(j: JsonDfa): (r: Result<Dfa, Panic>)
    ensures r.Failure? ==> r == FromJson(j)
    ensures r.Success? <==> FromJson(j).Success?
  {
    match FromJson(j)
    case Failure(e) => Failure(e)
    case Success(d) => Success(WithStartEntry(d))
  }

  /**
   * The corrected construction keeps every list of the original, adds at
   * most an empty list for the start state, and no walk from the start
   * panics; where the original did not panic, it ends in the same state.
   */
  lemma WithStartNeverPanics(j: JsonDfa, w: seq<Byte>)
    requires FromJsonWithStart(j).Success?
    ensures var d, e := FromJson(j).value, FromJsonWithStart(j).value;
      && e.start == d.start && e.matchStates == d.matchStates && e.dead == d.dead
      && (forall k :: k in d.table ==> k in e.table && e.table[k] == d.table[k])
      && (forall k :: k in e.table && k !in d.table ==> k == d.start && e.table[k] == [])
      && Closed(e) && e.start in e.table
      && Steps(e, e.start, w) == Success(Walk(e, e.start, w))
      && (Steps(d, d.start, w).Success? ==> Steps(d, d.start, w) == Steps(e, e.start, w))
  {
    var d, e := FromJson(j).value, FromJsonWithStart(j).value;
    FromJsonClosed(j);
    assert Closed(e);
    ClosedStepsNeverPanic(e, e.start, w);
    if d.start in d.table {
      assert e == d;
    } else if w != [] {
      MissingStatePanics(d, d.start, w);
    }
  }

  /**
   * The predicates of a DFA built from JSON: the dead state is 0, the start
   * and match states are the file's, so 0 is special and a match state only
   * when the file lists it; match_len is 1 exactly on listed match states
   * and never exceeds pattern_len; has_empty holds iff the file's start
   * state is listed as a match state.
   */
  lemma BuiltSpecialStates(j: JsonDfa, id: StateId)
    requires FromJson(j).Success?
    ensures IsDeadState(FromJson(j).value, id) <==> id == 0
    ensures IsStartState(FromJson(j).value, id) <==> id == j.startState
    ensures IsMatchState(FromJson(j).value, id) <==> id in j.matchStates
    ensures IsSpecialState(FromJson(j).value, id) <==> id == 0 || id == j.startState || id in j.matchStates
    ensures IsSpecialState(FromJson(j).value, DeadState)
    ensures MatchLen(FromJson(j).value, id) <= PatternLen(FromJson(j).value)
    ensures MatchLen(FromJson(j).value, id) == 1 <==> id in j.matchStates
    ensures HasEmpty(FromJson(j).value) <==> j.startState in j.matchStates
  {
  }
}
