/**
 * How the pieces fit together: the JSON that AutomatonSerializer writes is
 * read by the monitor's `dfa_from_json` and by dtr.py, and the two readers
 * interpret a transition list in different ways (first match against last
 * write).
 */
module CrossFile {
  import opened Wrappers
  import opened Bytes
  import Brics
  import S = Serializer
  import M = Monitor
  import D = Dtr

  // ---- the serializer's JSON as the monitor reads it ----

  /** serde accepts an entry when the ids are `usize` values and the bounds are `u8` values. */
  predicate Readable(e: S.TransitionEntry) {
    e.currState >= 0 && e.nextState >= 0 && 0 <= e.rangeStart <= 255 && 0 <= e.rangeEnd <= 255
  }

  function ReadEntry(e: S.TransitionEntry): M.JsonTransition
    requires Readable(e)
  {
    M.JsonTransition(e.currState, e.rangeStart, e.rangeEnd, e.nextState)
  }

  /** Deserializing the written object into the monitor's JsonDfa; None when serde rejects a field. */
  function MonitorReads(j: S.AutomatonJson): (r: Option<M.JsonDfa>)
    ensures r.Some? <==> j.startState >= 0 && (forall i :: 0 <= i < |j.matchStates| ==> j.matchStates[i] >= 0)
                         && forall i :: 0 <= i < |j.transitionTable| ==> Readable(j.transitionTable[i])
    ensures r.Some? ==> r.value.startState == j.startState && r.value.matchStates == j.matchStates
                        && |r.value.transitionTable| == |j.transitionTable|
                        && forall i :: 0 <= i < |j.transitionTable| ==> r.value.transitionTable[i] == ReadEntry(j.transitionTable[i])
  {
    var ms, ts := j.matchStates, j.transitionTable;
    if j.startState >= 0 && (forall i :: 0 <= i < |ms| ==> ms[i] >= 0) && (forall i :: 0 <= i < |ts| ==> Readable(ts[i])) then
      Some(M.JsonDfa(j.startState,
                     seq(|ms|, i requires 0 <= i < |ms| => ms[i] as nat),
                     seq(|ts|, i requires 0 <= i < |ts| => ReadEntry(ts[i]))))
    else None
  }

  /** Every transition of the automaton stays within the byte range. */
  ghost predicate ByteRanges(a: Brics.Automaton)
    requires Brics.Valid(a)
  {
    forall r, k :: r in a.info && 0 <= k < |a.info[r].transitions| ==> a.info[r].transitions[k].max <= 255
  }

  /** With byte ranges, every unsorted entry has byte bounds. */
  lemma {:induction false} EntriesBelowByte(a: Brics.Automaton, n: nat)
    requires Brics.Valid(a) && n <= |a.states| && ByteRanges(a)
    ensures forall e :: e in S.EntriesUpTo(a, n) ==> e.rangeEnd <= 255
  {
    if n > 0 {
      EntriesBelowByte(a, n - 1);
      var r := a.states[n - 1];
      var last := S.StateEntries(a, r);
      assert S.EntriesUpTo(a, n) == S.EntriesUpTo(a, n - 1) + last;
      forall e | e in last ensures e.rangeEnd <= 255 {
        var k :| 0 <= k < |last| && last[k] == e;
        assert e.rangeEnd == a.info[r].transitions[k].max;
      }
    }
  }

  /** The written table lists exactly the unsorted entries, so it has their bounds and ids. */
  lemma TableEntries(a: Brics.Automaton)
    requires Brics.Valid(a)
    ensures forall e :: e in S.Table(a) <==> e in S.EntriesUpTo(a, |a.states|)
    ensures forall e :: e in S.Table(a) ==>
      1 <= e.currState <= |a.states| && 1 <= e.nextState <= |a.states| && 0 <= e.rangeStart <= e.rangeEnd
  {
    var es := S.EntriesUpTo(a, |a.states|);
    assert multiset(S.Table(a)) == multiset(es);
    forall e ensures e in S.Table(a) <==> e in es {
      assert e in S.Table(a) <==> e in multiset(S.Table(a));
      assert e in es <==> e in multiset(es);
    }
    S.EntriesInRange(a, |a.states|);
  }

  /** A transition above 255 is written as an entry serde rejects. */
  lemma WideTransitionUnreadable(a: Brics.Automaton, i: nat, k: nat)
    requires Brics.Valid(a) && i < |a.states| && k < |a.info[a.states[i]].transitions|
    requires a.info[a.states[i]].transitions[k].max > 255
    ensures exists x :: 0 <= x < |S.Table(a)| && !Readable(S.Table(a)[x])
  {
    S.EntryAt(a, |a.states|, i, k);
    var e := S.EntryFor(a, i, k);
    TableEntries(a);
    assert e in S.EntriesUpTo(a, |a.states|);
    var x :| 0 <= x < |S.Table(a)| && S.Table(a)[x] == e;
  }

  /** The ids a JSON object carries all lie in 1..n. */
  predicate IdsWithin(j: S.AutomatonJson, n: nat) {
    && 1 <= j.startState <= n
    && (forall i :: 0 <= i < |j.matchStates| ==> 1 <= j.matchStates[i] <= n)
    && forall i :: 0 <= i < |j.transitionTable| ==>
         1 <= j.transitionTable[i].currState <= n && 1 <= j.transitionTable[i].nextState <= n
  }

  /** The serializer numbers from 1, so every id it writes is a position in the state list. */
  lemma SerializedIds(a: Brics.Automaton, regex: string)
    requires Brics.Valid(a)
    ensures IdsWithin(S.Serialized(a, regex), |a.states|)
  {
    var j := S.Serialized(a, regex);
    S.IdBijective(a);
    S.MatchStatesExact(a);
    TableEntries(a);
    forall i | 0 <= i < |j.matchStates| ensures 1 <= j.matchStates[i] <= |a.states| {
      assert j.matchStates[i] in S.MatchStates(a);
    }
    assert forall i :: 0 <= i < |j.transitionTable| ==> j.transitionTable[i] in S.Table(a);
  }

  /** The monitor can read the serializer's output exactly when every range lies in 0..255. */
  lemma SerializedReadable(a: Brics.Automaton, regex: string)
    requires Brics.Valid(a)
    ensures MonitorReads(S.Serialized(a, regex)).Some? <==> ByteRanges(a)
  {
    var j := S.Serialized(a, regex);
    SerializedIds(a, regex);
    if ByteRanges(a) {
      ByteTableReadable(a, j);
    } else {
      WideTableUnreadable(a);
    }
  }

  lemma WideTableUnreadable(a: Brics.Automaton)
    requires Brics.Valid(a) && !ByteRanges(a)
    ensures exists x :: 0 <= x < |S.Table(a)| && !Readable(S.Table(a)[x])
  {
    var r, k :| r in a.info && 0 <= k < |a.info[r].transitions| && a.info[r].transitions[k].max > 255;
    var i :| 0 <= i < |a.states| && a.states[i] == r;
    WideTransitionUnreadable(a, i, k);
  }

  lemma ByteTableReadable(a: Brics.Automaton, j: S.AutomatonJson)
    requires Brics.Valid(a) && ByteRanges(a) && j.transitionTable == S.Table(a)
    ensures forall i :: 0 <= i < |j.transitionTable| ==> Readable(j.transitionTable[i])
  {
    TableEntries(a);
    EntriesBelowByte(a, |a.states|);
    assert forall i :: 0 <= i < |j.transitionTable| ==> j.transitionTable[i] in S.Table(a);
  }

  /**
   * A JSON object without id 0 never fires the dead-state assertion of
   * `Dfa::new`, and builds a DFA whenever its ids fit a StateID.
   */
  lemma NoZeroIdBuilds(j: S.AutomatonJson, n: nat)
    requires IdsWithin(j, n) && MonitorReads(j).Some?
    ensures M.FromJson(MonitorReads(j).value) != Failure(M.DeadStateDefined)
    ensures n <= M.MaxStateId ==> M.FromJson(MonitorReads(j).value).Success?
  {
    var m := MonitorReads(j).value;
    var js := m.transitionTable;
    assert forall x :: 0 <= x < |js| ==> js[x].currState == j.transitionTable[x].currState >= 1;
    assert forall x :: 0 <= x < |js| ==> js[x].nextState == j.transitionTable[x].nextState >= 1;
    assert 0 !in M.CurrStates(js) && 0 !in M.NextStates(js);
    if n <= M.MaxStateId {
      assert M.JsonIdsFit(m);
    }
  }

  /**
   * The serializer's output, read by the monitor: readable exactly when the
   * ranges are bytes, and then the state-0 assertion never fires and the
   * construction succeeds whenever the ids fit a StateID.
   */
  lemma SerializedForMonitor(a: Brics.Automaton, regex: string)
    requires Brics.Valid(a)
    ensures MonitorReads(S.Serialized(a, regex)).Some? <==> ByteRanges(a)
    ensures MonitorReads(S.Serialized(a, regex)).Some? ==>
      M.FromJson(MonitorReads(S.Serialized(a, regex)).value) != Failure(M.DeadStateDefined)
    ensures MonitorReads(S.Serialized(a, regex)).Some? && |a.states| <= M.MaxStateId ==>
      M.FromJson(MonitorReads(S.Serialized(a, regex)).value).Success?
  {
    SerializedReadable(a, regex);
    SerializedIds(a, regex);
    if MonitorReads(S.Serialized(a, regex)).Some? {
      NoZeroIdBuilds(S.Serialized(a, regex), |a.states|);
    }
  }

  // ---- first match against last write ----

  /** dtr.py's view of the same entries. */
  function ToDtr(js: seq<M.JsonTransition>): (es: seq<D.DtrEntry>)
    ensures |es| == |js|
    ensures forall i :: 0 <= i < |js| ==>
      es[i] == D.DtrEntry(js[i].currState, js[i].rangeStart, js[i].rangeEnd, js[i].nextState)
  {
    seq(|js|, i requires 0 <= i < |js| => D.DtrEntry(js[i].currState, js[i].rangeStart, js[i].rangeEnd, js[i].nextState))
  }

  predicate Covers(t: M.JsonTransition, b: Byte) {
    t.rangeStart <= b <= t.rangeEnd
  }

  /** No two entries of the same state share a byte. */
  predicate DisjointPerState(js: seq<M.JsonTransition>) {
    forall i, j :: 0 <= i < j < |js| && js[i].currState == js[j].currState ==>
      js[i].rangeEnd < js[j].rangeStart || js[j].rangeEnd < js[i].rangeStart
  }

  predicate AnyMatch(ds: seq<M.TransitionDesc>, b: Byte) {
    exists i :: 0 <= i < |ds| && M.Matches(ds[i], b)
  }

  /** The first-match scan over two lists: the first list decides if it can. */
  lemma {:induction false} LookupConcat(x: seq<M.TransitionDesc>, y: seq<M.TransitionDesc>, b: Byte, dead: M.StateId)
    ensures M.Lookup(x + y, b, dead) == if AnyMatch(x, b) then M.Lookup(x, b, dead) else M.Lookup(y, b, dead)
    decreases |x|
  {
    if x == [] {
      assert x + y == y;
    } else {
      var xy := x + y;
      assert xy[0] == x[0] && xy[1..] == x[1..] + y;
      if !M.Matches(x[0], b) {
        LookupConcat(x[1..], y, b, dead);
        assert AnyMatch(x, b) <==> AnyMatch(x[1..], b) by {
          if AnyMatch(x, b) {
            var i :| 0 <= i < |x| && M.Matches(x[i], b);
            assert x[1..][i - 1] == x[i];
          }
          if AnyMatch(x[1..], b) {
            var i :| 0 <= i < |x[1..]| && M.Matches(x[1..][i], b);
            assert x[i + 1] == x[1..][i];
          }
        }
      } else {
        assert M.Matches(x[0], b);
      }
    }
  }

  /** With no entry of state k covering b, none of k's descriptors matches b. */
  lemma {:induction false} NoCover(js: seq<M.JsonTransition>, k: int, b: Byte)
    requires M.IdsFit(js)
    requires forall j :: 0 <= j < |js| && js[j].currState == k ==> !Covers(js[j], b)
    ensures !AnyMatch(M.DescsFor(js, k), b)
  {
    if js != [] {
      var p, last := js[..|js| - 1], js[|js| - 1];
      assert forall j :: 0 <= j < |p| ==> p[j] == js[j];
      NoCover(p, k, b);
      var tail := if last.currState == k then [M.Describe(last)] else [];
      assert !AnyMatch(tail, b);
      NoMatchConcat(M.DescsFor(p, k), tail, b);
    }
  }

  lemma NoMatchConcat(x: seq<M.TransitionDesc>, y: seq<M.TransitionDesc>, b: Byte)
    requires !AnyMatch(x, b) && !AnyMatch(y, b)
    ensures !AnyMatch(x + y, b)
  {
    forall i | 0 <= i < |x + y| ensures !M.Matches((x + y)[i], b) {
      if i < |x| {
        assert (x + y)[i] == x[i];
      } else {
        assert (x + y)[i] == y[i - |x|];
      }
    }
  }

  /**
   * The monitor's first-match scan and dtr.py's last write give a byte the
   * same target when the ranges of each state are pairwise disjoint; with
   * no covering entry both fall back to their dead state.
   */
  lemma {:induction false} FirstMatchIsLastWrite(js: seq<M.JsonTransition>, k: int, b: Byte)
    requires M.IdsFit(js) && DisjointPerState(js)
    ensures M.Lookup(M.DescsFor(js, k), b, M.DeadState) == match D.LastTarget(ToDtr(js), k, b)
                                                              case None => M.DeadState
                                                              case Some(n) => n
    decreases |js|
  {
    if js != [] {
      var p, last := js[..|js| - 1], js[|js| - 1];
      assert ToDtr(p) == ToDtr(js)[..|js| - 1];
      if last.currState == k && Covers(last, b) {
        LastEntryWins(js, k, b);
      } else {
        FirstMatchIsLastWrite(p, k, b);
        EarlierEntriesDecide(js, k, b);
      }
    }
  }

  /** When the last entry of state k covers b, no earlier one of k does, so the scan reaches it. */
  lemma LastEntryWins(js: seq<M.JsonTransition>, k: int, b: Byte)
    requires M.IdsFit(js) && DisjointPerState(js) && js != []
    requires js[|js| - 1].currState == k && Covers(js[|js| - 1], b)
    ensures M.Lookup(M.DescsFor(js, k), b, M.DeadState) == js[|js| - 1].nextState
  {
    var p, last := js[..|js| - 1], js[|js| - 1];
    forall j | 0 <= j < |p| && p[j].currState == k ensures !Covers(p[j], b) {
      assert p[j] == js[j];
      assert js[j].currState == js[|js| - 1].currState;
    }
    NoCover(p, k, b);
    var tail := [M.Describe(last)];
    assert M.DescsFor(js, k) == M.DescsFor(p, k) + tail;
    LookupConcat(M.DescsFor(p, k), tail, b, M.DeadState);
    assert M.Matches(tail[0], b);
  }

  /** When the last entry does not give state k the byte b, the earlier entries decide. */
  lemma EarlierEntriesDecide(js: seq<M.JsonTransition>, k: int, b: Byte)
    requires M.IdsFit(js) && js != []
    requires !(js[|js| - 1].currState == k && Covers(js[|js| - 1], b))
    ensures M.Lookup(M.DescsFor(js, k), b, M.DeadState) == M.Lookup(M.DescsFor(js[..|js| - 1], k), b, M.DeadState)
  {
    var p, last := js[..|js| - 1], js[|js| - 1];
    var tail := if last.currState == k then [M.Describe(last)] else [];
    assert M.DescsFor(js, k) == M.DescsFor(p, k) + tail;
    LookupConcat(M.DescsFor(p, k), tail, b, M.DeadState);
    assert !AnyMatch(tail, b);
    if !AnyMatch(M.DescsFor(p, k), b) {
      NoAnyMatch(M.DescsFor(p, k), b);
      M.LookupNoMatch(M.DescsFor(p, k), b, M.DeadState);
      M.LookupNoMatch(tail, b, M.DeadState);
    }
  }

  lemma NoAnyMatch(ds: seq<M.TransitionDesc>, b: Byte)
    requires !AnyMatch(ds, b)
    ensures forall j :: 0 <= j < |ds| ==> !M.Matches(ds[j], b)
  {
  }

  /**
   * Both readers of one JSON table agree on every listed state and byte: the
   * monitor's `next_state` and dtr.py's transitions name the same target,
   * and a byte no entry covers goes to the dead state in both.
   */
  lemma ReadersAgree(js: seq<M.JsonTransition>, k: int, b: Byte)
    requires M.IdsFit(js) && DisjointPerState(js)
    requires k in M.CurrStates(js) + M.NextStates(js)
    ensures D.Json(k) in D.Totalised(ToDtr(js)) && D.ByteToChar(b) in D.Totalised(ToDtr(js))[D.Json(k)]
    ensures match D.LastTarget(ToDtr(js), k, b)
      case None =>
        M.Lookup(M.DescsFor(js, k), b, M.DeadState) == M.DeadState
        && D.Totalised(ToDtr(js))[D.Json(k)][D.ByteToChar(b)] == D.Dead
      case Some(n) =>
        M.Lookup(M.DescsFor(js, k), b, M.DeadState) == n
        && D.Totalised(ToDtr(js))[D.Json(k)][D.ByteToChar(b)] == D.Json(n)
  {
    var es := ToDtr(js);
    if k in M.CurrStates(js) {
      var i :| 0 <= i < |js| && js[i].currState == k;
      assert D.Json(es[i].curr) in (set x | 0 <= x < |es| :: D.Json(es[x].curr));
    } else {
      var i :| 0 <= i < |js| && js[i].nextState == k;
      assert D.Json(es[i].next) in (set x | 0 <= x < |es| :: D.Json(es[x].next));
    }
    FirstMatchIsLastWrite(js, k, b);
    D.DtrTarget(es, k, b);
  }
}
