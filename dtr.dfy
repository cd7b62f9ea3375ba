/**
 * dfa-to-regex/dtr.py up to the call of the automata library's `DFA`
 * constructor: the byte symbols, the expansion of the JSON ranges into
 * per-symbol transitions (later entries overwrite earlier ones), the routing
 * of every missing symbol to the dead state `'0'` and the absorbing dead state.
 */
module Dtr {
  import opened Wrappers
  import opened Bytes
  import opened HexCodec

  // ---- symbols ----

  /** Python's hex form of a natural number: no leading zeros, at least one digit. */
  function HexNat(n: nat): (s: string)
    ensures |s| >= 1
    decreases n
  {
    if n < 16 then [HexDigit(n)] else HexNat(n / 16) + [HexDigit(n % 16)]
  }

  /** `f'{b:02x}'`: the sign, then the digits, padded with zeros to width 2. */
  function Format02x(b: int): string {
    if b < 0 then "-" + HexNat(-b)
    else if b < 16 then "0" + HexNat(b)
    else HexNat(b)
  }

  /** `byte_to_char`: printable ASCII stands for itself, every other value is `\xNN`. */
  function ByteToChar(b: int): string {
    if 32 <= b <= 126 then [b as char] else "\\x" + Format02x(b)
  }

  /** Python's hex form starts with a digit. */
  lemma {:induction false} HexNatFirstDigit(n: nat)
    ensures IsHexDigit(HexNat(n)[0])
    decreases n
  {
    if n >= 16 {
      HexNatFirstDigit(n / 16);
      assert HexNat(n)[0] == HexNat(n / 16)[0];
    }
  }

  /** The padded form has at least two characters and starts with a minus sign exactly for a negative value. */
  lemma Format02xForm(b: int)
    ensures |Format02x(b)| >= 2
    ensures Format02x(b)[0] == '-' <==> b < 0
  {
    if b < 0 {
      assert |HexNat(-b)| >= 1;
    } else if b >= 16 {
      assert |HexNat(b / 16)| >= 1;
      HexNatFirstDigit(b);
      assert !IsHexDigit('-');
    } else {
      assert !IsHexDigit('-') && IsHexDigit('0');
    }
  }

  /** A symbol is one character, the value itself, exactly for printable ASCII; otherwise an escape. */
  lemma ByteToCharForm(b: int)
    ensures |ByteToChar(b)| == 1 <==> 32 <= b <= 126
    ensures |ByteToChar(b)| == 1 ==> ByteToChar(b)[0] as int == b
    ensures |ByteToChar(b)| != 1 ==> |ByteToChar(b)| >= 4 && ByteToChar(b)[..2] == "\\x"
  {
    if !(32 <= b <= 126) {
      Format02xForm(b);
      assert ByteToChar(b)[..2] == "\\x";
    }
  }

  /** For a byte value the format is exactly `%02x`. */
  lemma Format02xOfByte(b: Byte)
    ensures Format02x(b) == Hex2(b)
  {
    assert HexDigit(0) == '0';
    if b >= 16 {
      assert HexNat(b / 16) == [HexDigit(b / 16)];
    }
  }

  lemma {:induction false} HexNatLong(n: nat)
    requires n >= 256
    ensures |HexNat(n)| >= 3
  {
    assert |HexNat(n / 16)| >= 2 by {
      assert n / 16 >= 16;
    }
  }

  /** Reading a symbol back: the byte it stands for, if it is one of the 256. */
  function SymbolByte(s: string): Option<Byte> {
    if |s| == 1 && 32 <= s[0] as int <= 126 then Some(s[0] as int)
    else if |s| == 4 && s[..2] == "\\x" && IsHexDigit(s[2]) && IsHexDigit(s[3]) then
      var v := 16 * DigitValue(s[2]) + DigitValue(s[3]);
      if 32 <= v <= 126 then None else Some(v)
    else None
  }

  /** A symbol that decodes to a byte is that byte's symbol. */
  lemma SymbolByteSound(s: string)
    requires SymbolByte(s).Some?
    ensures ByteToChar(SymbolByte(s).value) == s
  {
    var b := SymbolByte(s).value;
    if |s| == 1 && 32 <= s[0] as int <= 126 {
      assert ByteToChar(b) == [s[0]];
    } else {
      Format02xOfByte(b);
      Hex2OfDigits(s[2], s[3]);
      assert s == s[..2] + [s[2], s[3]];
    }
  }

  /** Every byte's symbol decodes to that byte, and no other value's symbol names a byte. */
  lemma SymbolByteOfByteToChar(b: int)
    ensures SymbolByte(ByteToChar(b)) == if 0 <= b < 256 then Some(b) else None
  {
    if 32 <= b <= 126 {
      assert ByteToChar(b) == [b as char];
    } else if 0 <= b < 256 {
      EscapedByte(b);
    } else if b < 0 {
      assert ByteToChar(b)[2] == '-';
    } else {
      HexNatLong(b);
    }
  }

  lemma EscapedByte(b: Byte)
    requires !(32 <= b <= 126)
    ensures SymbolByte(ByteToChar(b)) == Some(b)
  {
    Format02xOfByte(b);
    Hex2Decodes(b);
    var h := Hex2(b);
    var s := "\\x" + h;
    assert ByteToChar(b) == s;
    assert s[..2] == "\\x" && s[2] == h[0] && s[3] == h[1];
  }

  /** The 256 byte values have 256 distinct symbols; no other value shares one of them. */
  lemma ByteToCharInjective(a: int, b: int)
    requires 0 <= b < 256
    requires ByteToChar(a) == ByteToChar(b)
    ensures a == b
  {
    SymbolByteOfByteToChar(a);
    SymbolByteOfByteToChar(b);
  }

  /** The symbols f(lo), ..., f(hi). */
  function Image(f: int -> string, lo: int, hi: int): set<string> {
    set x | lo <= x <= hi :: f(x)
  }

  /** `all_chars`: the symbols of the bytes 0..255. */
  function AllChars(): set<string> {
    Image(ByteToChar, 0, 255)
  }

  lemma ImageStep(f: int -> string, lo: int, hi: int)
    requires lo <= hi
    ensures Image(f, lo, hi) == Image(f, lo, hi - 1) + {f(hi)}
  {
  }

  lemma {:induction false} ImageCount(f: int -> string, n: nat)
    requires forall x, y :: 0 <= x < y < n && f(x) == f(y) ==> false
    ensures |Image(f, 0, n - 1)| == n
  {
    if n > 0 {
      ImageCount(f, n - 1);
      ImageStep(f, 0, n - 1);
      forall x | 0 <= x <= n - 2 ensures f(x) != f(n - 1) {
        assert x < n - 1;
      }
      NotInImage(f, 0, n - 2, f(n - 1));
    }
  }

  lemma NotInImage(f: int -> string, lo: int, hi: int, v: string)
    requires forall x :: lo <= x <= hi ==> f(x) != v
    ensures v !in Image(f, lo, hi)
  {
  }

  lemma AllCharsCount()
    ensures |AllChars()| == 256
  {
    forall x, y | 0 <= x < y < 256 && ByteToChar(x) == ByteToChar(y) ensures false {
      ByteToCharInjective(x, y);
    }
    ImageCount(ByteToChar, 256);
  }

  // ---- the JSON and the table ----

  /** A state as Python sees it: the string `'0'` or a number read from the JSON. */
  datatype PyState = Dead | Json(id: int)

  datatype DtrEntry = DtrEntry(curr: int, rangeStart: int, rangeEnd: int, next: int)

  datatype DtrJson = DtrJson(startState: int, matchStates: seq<int>, transitionTable: seq<DtrEntry>)

  type Row = map<string, PyState>
  type Table = map<PyState, Row>

  /** The arguments passed to the library's `DFA` constructor. */
  datatype DfaArgs = DfaArgs(states: set<PyState>, inputSymbols: set<string>, transitions: Table,
                             initialState: PyState, finalStates: set<PyState>)

  /** The symbols of r_start..r_end (both included), all mapped to next. */
  function RangeRow(lo: int, hi: int, next: PyState): Row {
    map sym | sym in Image(ByteToChar, lo, hi) :: next
  }

  function RowOf(t: Table, s: PyState): Row {
    if s in t then t[s] else map[]
  }

  /** `transitions` after the loop over the first |es| entries. */
  function Expand(es: seq<DtrEntry>): (t: Table)
    ensures Dead !in t
    decreases |es|
  {
    if es == [] then map[]
    else
      var t := Expand(es[..|es| - 1]);
      var e := es[|es| - 1];
      t[Json(e.curr) := RowOf(t, Json(e.curr)) + RangeRow(e.rangeStart, e.rangeEnd, Json(e.next))]
  }

  /** `states`: `'0'` and every current and next state of the entries. */
  function StatesOf(es: seq<DtrEntry>): set<PyState> {
    {Dead} + (set i | 0 <= i < |es| :: Json(es[i].curr)) + (set i | 0 <= i < |es| :: Json(es[i].next))
  }

  /** `'0'` and every entry's current and next state are listed. */
  lemma StatesListed(es: seq<DtrEntry>)
    ensures Dead in StatesOf(es)
    ensures forall i :: 0 <= i < |es| ==> Json(es[i].curr) in StatesOf(es) && Json(es[i].next) in StatesOf(es)
  {
  }

  /** A row once its symbols missing from syms go to `'0'`. */
  function Filled(row: Row, syms: set<string>): Row {
    map sym | sym in row.Keys + syms :: if sym in row then row[sym] else Dead
  }

  function DeadRow(): Row {
    map sym | sym in AllChars() :: Dead
  }

  /** The transition table handed to `DFA`. */
  function Totalised(es: seq<DtrEntry>): (t: Table)
    ensures t.Keys == StatesOf(es)
    ensures t[Dead] == DeadRow()
  {
    (map s | s in StatesOf(es) :: Filled(RowOf(Expand(es), s), AllChars()))[Dead := DeadRow()]
  }

  // ---- load_dfa_from_json ----

  /**
   * `load_dfa_from_json` once the file is parsed: the three loops and the
   * dead-state override, with the set iterations in an arbitrary order.
   */
  method LoadDfaFromJson(data: DtrJson) returns (dfa: DfaArgs)
    ensures dfa.states == StatesOf(data.transitionTable)
    ensures dfa.inputSymbols == AllChars()
    ensures dfa.transitions == Totalised(data.transitionTable)
    ensures dfa.initialState == Json(data.startState)
    ensures dfa.finalStates == set i | 0 <= i < |data.matchStates| :: Json(data.matchStates[i])
  {
    var startState := Json(data.startState);
    var finalStates := set i | 0 <= i < |data.matchStates| :: Json(data.matchStates[i]);
    var table := data.transitionTable;
    var allChars := AllChars();
    var transitions: Table := map[];
    var states: set<PyState> := {Dead};
    for i := 0 to |table|
      invariant transitions == Expand(table[..i])
      invariant states == StatesOf(table[..i])
    {
      var entry := table[i];
      StatesStep(table, i);
      states := states + {Json(entry.curr), Json(entry.next)};
      transitions := AddEntry(transitions, entry);
      assert table[..i + 1][..i] == table[..i];
    }
    assert table[..|table|] == table;
    ExpandKeys(table);
    transitions := FillMissing(states, transitions, allChars);
    transitions := transitions[Dead := map s | s in allChars :: Dead];
    dfa := DfaArgs(states, allChars, transitions, startState, finalStates);
  }

  /**
   * The body of the entry loop: every byte of the range maps its symbol
   * under curr to next. The row `transitions[curr]`, which Python updates in
   * place, is held in `row` and stored back once.
   */
  method AddEntry(t0: Table, entry: DtrEntry) returns (transitions: Table)
    ensures transitions == t0[Json(entry.curr) := RowOf(t0, Json(entry.curr)) + RangeRow(entry.rangeStart, entry.rangeEnd, Json(entry.next))]
  {
    var curr := Json(entry.curr);
    var next := Json(entry.next);
    var lo := entry.rangeStart;
    var row: Row := if curr in t0 then t0[curr] else map[];
    row := FillRange(row, lo, entry.rangeEnd, next);
    transitions := t0[curr := row];
  }

  /** `for byte in range(r_start, r_end + 1)` over one row. */
  method FillRange(row0: Row, lo: int, hi: int, next: PyState) returns (row: Row)
    ensures row == row0 + RangeRow(lo, hi, next)
  {
    row := row0;
    RangeRowEmpty(row0, lo, lo - 1, next);
    var byte := lo;
    while byte <= hi
      invariant lo <= byte
      invariant byte == lo || byte <= hi + 1
      invariant row == row0 + RangeRow(lo, byte - 1, next)
      decreases hi - byte
    {
      RangeRowStep(row0, lo, byte, next);
      row := row[ByteToChar(byte) := next];
      byte := byte + 1;
    }
    if byte - 1 != hi {
      RangeRowEmpty(row0, lo, byte - 1, next);
      RangeRowEmpty(row0, lo, hi, next);
    }
  }

  lemma RangeRowEmpty(row: Row, lo: int, hi: int, next: PyState)
    requires hi < lo
    ensures row + RangeRow(lo, hi, next) == row
  {
    assert Image(ByteToChar, lo, hi) == {};
  }

  lemma RangeRowStep(row: Row, lo: int, b: int, next: PyState)
    requires lo <= b
    ensures (row + RangeRow(lo, b - 1, next))[ByteToChar(b) := next] == row + RangeRow(lo, b, next)
  {
    ImageStep(ByteToChar, lo, b);
  }

  /** The fill loop over `states`: each state's row gets `'0'` for every missing symbol. */
  method FillMissing(states: set<PyState>, t0: Table, allChars: set<string>) returns (t: Table)
    requires t0.Keys <= states
    ensures t == map s | s in states :: Filled(RowOf(t0, s), allChars)
  {
    t := t0;
    var remaining := states;
    while remaining != {}
      invariant remaining <= states
      invariant t.Keys == t0.Keys + (states - remaining)
      invariant forall s :: s in states - remaining ==> t[s] == Filled(RowOf(t0, s), allChars)
      invariant forall s :: s in remaining && s in t0 ==> t[s] == t0[s]
      decreases remaining
    {
      var state :| state in remaining;
      if state !in t {
        t := t[state := map[]];
      }
      var row := FillRow(t[state], allChars);
      t := t[state := row];
      remaining := remaining - {state};
    }
  }

  /** The inner loop over `all_chars - defined_symbols`. */
  method FillRow(row: Row, allChars: set<string>) returns (filled: Row)
    ensures filled == Filled(row, allChars)
  {
    filled := row;
    var undefinedSymbols := allChars - row.Keys;
    var remaining := undefinedSymbols;
    while remaining != {}
      invariant FillingRow(row, undefinedSymbols, remaining, filled)
      decreases remaining
    {
      var symbol :| symbol in remaining;
      FillRowStep(row, undefinedSymbols, remaining, filled, symbol);
      filled := filled[symbol := Dead];
      remaining := remaining - {symbol};
    }
    FilledByKeys(row, allChars, filled);
  }

  /** The inner loop's invariant: the symbols already visited go to `'0'`. */
  predicate FillingRow(row: Row, undefinedSymbols: set<string>, remaining: set<string>, filled: Row) {
    && remaining <= undefinedSymbols
    && (forall sym :: sym in undefinedSymbols ==> sym !in row)
    && filled.Keys == row.Keys + (undefinedSymbols - remaining)
    && forall sym :: sym in filled ==> filled[sym] == if sym in row then row[sym] else Dead
  }

  lemma FillRowStep(row: Row, undefinedSymbols: set<string>, remaining: set<string>, filled: Row, symbol: string)
    requires FillingRow(row, undefinedSymbols, remaining, filled) && symbol in remaining
    ensures FillingRow(row, undefinedSymbols, remaining - {symbol}, filled[symbol := Dead])
  {
  }

  lemma FilledByKeys(row: Row, syms: set<string>, filled: Row)
    requires filled.Keys == row.Keys + (syms - row.Keys)
    requires forall sym :: sym in filled ==> filled[sym] == if sym in row then row[sym] else Dead
    ensures filled == Filled(row, syms)
  {
    assert filled.Keys == Filled(row, syms).Keys;
  }

  lemma StatesStep(es: seq<DtrEntry>, i: nat)
    requires i < |es|
    ensures StatesOf(es[..i + 1]) == StatesOf(es[..i]) + {Json(es[i].curr), Json(es[i].next)}
  {
    var p, q := es[..i], es[..i + 1];
    assert forall j :: 0 <= j < i ==> q[j] == p[j];
    assert (set j | 0 <= j < |q| :: Json(q[j].curr)) == (set j | 0 <= j < |p| :: Json(p[j].curr)) + {Json(es[i].curr)};
    assert (set j | 0 <= j < |q| :: Json(q[j].next)) == (set j | 0 <= j < |p| :: Json(p[j].next)) + {Json(es[i].next)};
  }

  /** The rows built from the entries belong to current states. */
  lemma {:induction false} ExpandKeys(es: seq<DtrEntry>)
    ensures forall s :: s in Expand(es) ==> exists i :: 0 <= i < |es| && s == Json(es[i].curr)
    ensures Expand(es).Keys <= StatesOf(es)
    decreases |es|
  {
    if es != [] {
      var p := es[..|es| - 1];
      ExpandKeys(p);
      forall s | s in Expand(es) ensures exists i :: 0 <= i < |es| && s == Json(es[i].curr) {
        if s != Json(es[|es| - 1].curr) {
          var i :| 0 <= i < |p| && s == Json(p[i].curr);
          assert es[i] == p[i];
        }
      }
    }
  }

  // ---- what the table says ----

  /** The target the entries give to byte b under state s: the last entry that covers it. */
  function LastTarget(es: seq<DtrEntry>, s: int, b: int): Option<int>
    decreases |es|
  {
    if es == [] then None
    else
      var e := es[|es| - 1];
      if e.curr == s && e.rangeStart <= b <= e.rangeEnd then Some(e.next)
      else LastTarget(es[..|es| - 1], s, b)
  }

  /** A byte's symbol lies in the symbols of a range exactly when the byte does. */
  lemma InImage(lo: int, hi: int, b: Byte)
    ensures ByteToChar(b) in Image(ByteToChar, lo, hi) <==> lo <= b <= hi
  {
    if ByteToChar(b) in Image(ByteToChar, lo, hi) {
      var x :| lo <= x <= hi && ByteToChar(x) == ByteToChar(b);
      ByteToCharInjective(x, b);
    }
  }

  /** Later entries overwrite earlier ones: the row of s holds byte b's symbol iff some entry covers b, with the last one's target. */
  lemma {:induction false} ExpandLookup(es: seq<DtrEntry>, s: int, b: Byte)
    ensures ByteToChar(b) in RowOf(Expand(es), Json(s)) <==> LastTarget(es, s, b).Some?
    ensures LastTarget(es, s, b).Some? ==> RowOf(Expand(es), Json(s))[ByteToChar(b)] == Json(LastTarget(es, s, b).value)
    decreases |es|
  {
    if es != [] {
      var p := es[..|es| - 1];
      var e := es[|es| - 1];
      ExpandLookup(p, s, b);
      InImage(e.rangeStart, e.rangeEnd, b);
    }
  }

  lemma InAllChars(b: Byte)
    ensures ByteToChar(b) in AllChars()
  {
    InImage(0, 255, b);
  }

  /**
   * The table handed to `DFA`, read at a listed state and a byte: the last
   * entry's target when an entry covers the byte, the dead state otherwise.
   */
  lemma DtrTarget(es: seq<DtrEntry>, s: int, b: Byte)
    requires Json(s) in StatesOf(es)
    ensures Json(s) in Totalised(es) && ByteToChar(b) in Totalised(es)[Json(s)]
    ensures Totalised(es)[Json(s)][ByteToChar(b)] == match LastTarget(es, s, b)
                                                     case None => Dead
                                                     case Some(n) => Json(n)
  {
    ExpandLookup(es, s, b);
    InAllChars(b);
  }

  /** The dead state `'0'` sends every symbol to itself, whatever the entries say about state 0. */
  lemma DeadAbsorbing(es: seq<DtrEntry>, b: Byte)
    ensures Dead in Totalised(es) && ByteToChar(b) in Totalised(es)[Dead]
    ensures Totalised(es)[Dead][ByteToChar(b)] == Dead
  {
    InAllChars(b);
  }

  /** Every state has a row, and every row is defined on all 256 symbols. */
  lemma TotalOnAllChars(es: seq<DtrEntry>)
    ensures Totalised(es).Keys == StatesOf(es)
    ensures forall s :: s in Totalised(es) ==> AllChars() <= Totalised(es)[s].Keys
  {
  }

  /** The row values built from the entries are next states of the entries. */
  lemma {:induction false} ExpandTargets(es: seq<DtrEntry>, s: PyState, sym: string)
    requires s in Expand(es) && sym in Expand(es)[s]
    ensures exists i :: 0 <= i < |es| && Expand(es)[s][sym] == Json(es[i].next)
    decreases |es|
  {
    var p := es[..|es| - 1];
    var e := es[|es| - 1];
    if s == Json(e.curr) && sym in RangeRow(e.rangeStart, e.rangeEnd, Json(e.next)) {
      assert Expand(es)[s][sym] == Json(es[|es| - 1].next);
    } else {
      ExpandTargets(p, s, sym);
      var i :| 0 <= i < |p| && Expand(p)[s][sym] == Json(p[i].next);
      assert es[i] == p[i];
    }
  }

  /** Every transition of the table leads to a state of `states`. */
  lemma TotalisedClosed(es: seq<DtrEntry>, s: PyState, sym: string)
    requires s in Totalised(es) && sym in Totalised(es)[s]
    ensures Totalised(es)[s][sym] in StatesOf(es)
  {
    var t := Totalised(es);
    if s != Dead && sym in RowOf(Expand(es), s) {
      ExpandTargets(es, s, sym);
      var i :| 0 <= i < |es| && Expand(es)[s][sym] == Json(es[i].next);
      assert Json(es[i].next) in (set j | 0 <= j < |es| :: Json(es[j].next));
    }
  }

  /** The initial state is one of `states` exactly when some entry starts or ends in it. */
  lemma InitialListed(data: DtrJson)
    ensures Json(data.startState) in StatesOf(data.transitionTable)
            <==> exists i :: 0 <= i < |data.transitionTable|
                   && (data.transitionTable[i].curr == data.startState || data.transitionTable[i].next == data.startState)
  {
    var es := data.transitionTable;
    if Json(data.startState) in StatesOf(es) {
      if Json(data.startState) in (set i | 0 <= i < |es| :: Json(es[i].curr)) {
        var i :| 0 <= i < |es| && Json(data.startState) == Json(es[i].curr);
      } else {
        var i :| 0 <= i < |es| && Json(data.startState) == Json(es[i].next);
      }
    } else {
      forall i | 0 <= i < |es| ensures es[i].curr != data.startState && es[i].next != data.startState {
        assert Json(es[i].curr) in (set j | 0 <= j < |es| :: Json(es[j].curr));
        assert Json(es[i].next) in (set j | 0 <= j < |es| :: Json(es[j].next));
      }
    }
  }
}
