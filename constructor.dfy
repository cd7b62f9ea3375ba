/**
 * The older JSON-to-table conversion of automaton-constructor/src/main.rs.
 * It builds the same per-state descriptor lists as the monitor but gives no
 * entry to a state that only ever appears as a next state.
 */
module Constructor {
  import opened Wrappers
  import M = Monitor
  import Sorting

  /** The constructor's table: an entry for each current state only. */
  function TableOf(js: seq<M.JsonTransition>): (t: M.TransitionTable)
    requires M.IdsFit(js)
  {
    map k: M.StateId | k in M.CurrStates(js) :: M.DescsFor(js, k)
  }

  /**
   * `convert_json_transitions`: one descriptor per entry, appended to its
   * current state's list in input order; `StateID::must` panics above
   * MaxStateId (None).
   */
  method ConvertJsonTransitions(js: seq<M.JsonTransition>) returns (r: Option<M.TransitionTable>)
    ensures r.Some? <==> M.IdsFit(js)
    ensures r.Some? ==> r.value == TableOf(js)
    ensures r.Some? ==> forall k: int :: k in r.value <==> k in M.CurrStates(js)
    ensures r.Some? ==> forall k :: k in r.value ==> r.value[k] == M.DescsFor(js, k)
  {
    var table: M.TransitionTable := map[];
    for i := 0 to |js|
      invariant M.IdsFit(js[..i])
      invariant forall k: int :: k in table <==> k in M.CurrStates(js[..i])
      invariant forall k :: k in table ==> table[k] == M.DescsFor(js[..i], k)
    {
      var t := js[i];
      if !M.FitsStateId(t.currState) {
        M.NotFitAt(js, i);
        return None;
      }
      var descs := if t.currState in table then table[t.currState] else [];
      if !M.FitsStateId(t.nextState) {
        M.NotFitAt(js, i);
        return None;
      }
      M.PrefixStep(js, i);
      if t.currState !in table {
        M.DescsForAbsent(js[..i], t.currState);
      }
      table := table[t.currState := descs + [M.Describe(t)]];
    }
    assert js[..|js|] == js;
    assert table == TableOf(js);
    r := Some(table);
  }

  /**
   * `dfa_from_json` of the constructor, once the file is parsed: start state
   * and match states go to `Dfa::new` unchanged, with the constructor's
   * table. Only a current state 0 trips the dead-state assertion.
   */
  function FromJson(j: M.JsonDfa): (r: Result<M.Dfa, M.Panic>)
    ensures r == Failure(M.IdOutOfRange) <==> !M.JsonIdsFit(j)
    ensures r == Failure(M.DeadStateDefined) <==> M.JsonIdsFit(j) && 0 in M.CurrStates(j.transitionTable)
    ensures r.Success? ==>
      && r.value.start == j.startState
      && (forall m: int :: m in r.value.matchStates <==> m in j.matchStates)
      && r.value.dead == M.DeadState
      && r.value.table == TableOf(j.transitionTable)[M.DeadState := M.DeadBehaviour]
  {
    if !M.JsonIdsFit(j) then Failure(M.IdOutOfRange)
    else
      M.New(j.startState, set i | 0 <= i < |j.matchStates| :: j.matchStates[i] as M.StateId,
            TableOf(j.transitionTable))
  }

  /**
   * The monitor's table is the constructor's plus an empty list for every
   * state that is only a next state; the two agree on every current state.
   */
  lemma MonitorAddsNextOnlyStates(js: seq<M.JsonTransition>)
    requires M.IdsFit(js)
    ensures forall k :: k in TableOf(js) ==> k in M.TableOf(js) && M.TableOf(js)[k] == TableOf(js)[k]
    ensures forall k: M.StateId :: k in M.NextStates(js) && k !in M.CurrStates(js) ==>
      k !in TableOf(js) && k in M.TableOf(js) && M.TableOf(js)[k] == []
    ensures forall k: int :: k in M.TableOf(js) <==> k in TableOf(js) || k in M.NextStates(js)
  {
    forall k: M.StateId | k in M.NextStates(js) && k !in M.CurrStates(js)
      ensures M.TableOf(js)[k] == []
    {
      M.DescsForAbsent(js, k);
    }
  }

  /**
   * A next state 0 that is no current state breaks only the monitor's
   * construction: its table gives 0 an entry, the constructor's does not.
   */
  lemma NextStateZeroContrast(j: M.JsonDfa)
    requires M.JsonIdsFit(j)
    requires 0 in M.NextStates(j.transitionTable) && 0 !in M.CurrStates(j.transitionTable)
    ensures M.FromJson(j) == Failure(M.DeadStateDefined)
    ensures FromJson(j).Success?
  {
  }

  /**
   * The constructor's DFA can be walked without a panic only when every next
   * state is a current state or the dead state; the monitor's always can.
   */
  lemma ClosedIffNextStatesCovered(j: M.JsonDfa)
    requires FromJson(j).Success?
    ensures M.Closed(FromJson(j).value) <==>
      forall k :: k in M.NextStates(j.transitionTable) ==> k == 0 || k in M.CurrStates(j.transitionTable)
  {
    var js := j.transitionTable;
    var dfa := FromJson(j).value;
    if forall k :: k in M.NextStates(js) ==> k == 0 || k in M.CurrStates(js) {
      forall k, i | k in dfa.table && 0 <= i < |dfa.table[k]| ensures dfa.table[k][i].next in dfa.table {
        if k != M.DeadState {
          M.DescsForTargets(js, k);
        }
      }
    } else {
      var k :| k in M.NextStates(js) && k != 0 && k !in M.CurrStates(js);
      var i :| 0 <= i < |js| && js[i].nextState == k;
      var c := js[i].currState;
      M.DescsForPositions(js, c);
      var n := Sorting.CountWhere(js[..i], (t: M.JsonTransition) => t.currState == c);
      assert M.DescsFor(js, c)[n].next == k;
      assert c in dfa.table;
      assert k !in dfa.table;
    }
  }
}
