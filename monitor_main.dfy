/**
 * `validate_stream` of monitor/src/main.rs: the lines of the stream are
 * searched one by one, each must be matched in full, and the lines are
 * glued together without separators. The DFA search is a parameter: it
 * returns an error, no match, or the pattern and end offset of a match.
 */
module MonitorMain {
  import opened Wrappers
  import opened Bytes

  /** What `try_search_fwd` returns for a line. */
  datatype SearchResult =
    | SearchError                             // the `Err` that `expect` turns into a panic
    | NoMatch                                 // `Ok(None)`
    | HalfMatch(pattern: nat, offset: nat)    // `Ok(Some(mtch))`

  /** The three panics of the loop, with the incriminating line. */
  datatype Abort =
    | SearchErrored                 // "DFA search errored"
    | PartialMatch(line: seq<Byte>) // a match that does not end at the end of the line
    | Rejected(line: seq<Byte>)     // no match at all

  /** A line is accepted when the search ends, for pattern 0, exactly at its last byte. */
  predicate FullMatch(search: seq<Byte> -> SearchResult, line: seq<Byte>) {
    search(line) == HalfMatch(0, |line|)
  }

  /** The panic a line causes, if any. */
  function Verdict(search: seq<Byte> -> SearchResult, line: seq<Byte>): (v: Option<Abort>)
    ensures v.None? <==> FullMatch(search, line)
    ensures search(line) == SearchError ==> v == Some(SearchErrored)
    ensures search(line) == NoMatch ==> v == Some(Rejected(line))
    ensures search(line).HalfMatch? && !FullMatch(search, line) ==> v == Some(PartialMatch(line))
  {
    match search(line)
    case SearchError => Some(SearchErrored)
    case NoMatch => Some(Rejected(line))
    case HalfMatch(pattern, offset) =>
      if pattern == 0 && offset == |line| then None else Some(PartialMatch(line))
  }

  /** The lines one after the other, with nothing between them. */
  function Concat(lines: seq<seq<Byte>>): seq<Byte> {
    if lines == [] then [] else lines[0] + Concat(lines[1..])
  }

  /** Gluing two runs of lines is gluing their concatenations. */
  lemma {:induction false} ConcatAppend(a: seq<seq<Byte>>, b: seq<seq<Byte>>)
    ensures Concat(a + b) == Concat(a) + Concat(b)
    decreases |a|
  {
    if a == [] {
      assert a + b == b;
    } else {
      var ab := a + b;
      assert ab != [] && ab[0] == a[0] && ab[1..] == a[1..] + b;
      assert Concat(ab) == a[0] + Concat(a[1..] + b);
      ConcatAppend(a[1..], b);
    }
  }

  /**
   * `validate_stream` over the lines of the stream (as bytes): the
   * concatenation when every line matches in full, otherwise the panic of
   * the first line that does not.
   */
  method ValidateStream(lines: seq<seq<Byte>>, search: seq<Byte> -> SearchResult) returns (r: Result<seq<Byte>, Abort>)
    ensures r.Success? <==> forall i :: 0 <= i < |lines| ==> FullMatch(search, lines[i])
    ensures r.Success? ==> r.value == Concat(lines)
    ensures r.Failure? ==> exists k :: 0 <= k < |lines| && (forall j :: 0 <= j < k ==> FullMatch(search, lines[j]))
                                       && Verdict(search, lines[k]) == Some(r.error)
    ensures lines == [] ==> r == Success([])
  {
    var output: seq<Byte> := [];
    for k := 0 to |lines|
      invariant output == Concat(lines[..k])
      invariant forall j :: 0 <= j < k ==> FullMatch(search, lines[j])
    {
      var line := lines[k];
      match search(line) {
        case SearchError =>
          return Failure(SearchErrored);
        case NoMatch =>
          return Failure(Rejected(line));
        case HalfMatch(pattern, offset) =>
          if pattern == 0 && offset == |line| {
            assert lines[..k + 1] == lines[..k] + [line];
            ConcatAppend(lines[..k], [line]);
            assert Concat([line]) == line + Concat([]);
            output := output + line;
          } else {
            return Failure(PartialMatch(line));
          }
      }
    }
    assert lines[..|lines|] == lines;
    return Success(output);
  }

  /** Joining drops the line boundaries: two lines print like their concatenation as one line. */
  lemma BoundariesLost(a: seq<Byte>, b: seq<Byte>)
    ensures Concat([a, b]) == Concat([a + b])
  {
    assert [a, b][1..] == [b];
    assert [a, b][1..][1..] == [];
    assert [a + b][1..] == [];
  }
}
