# stream-monitor in Dafny

stream-monitor checks that every line of a byte stream matches a regular
expression. The regular expression is compiled ahead of time into a
deterministic finite automaton (DFA) that is stored as JSON.

This project models the parts of the repository that move that automaton
from one tool to the next, and proves properties of them.

- **RegexDfaBuilder / RegexDfaDemo (Java).**
  - They build a DFA with dk.brics.automaton and intersect it with a Σ* automaton over the characters 0..255.
  - They can complete the DFA with a garbage state.
  - They name the output file after the SHA-256 of the regex.
- **AutomatonSerializer (Java).**
  - It numbers the states 1..n.
  - It sorts the accepting ids.
  - It writes one JSON entry per transition, sorted by current state and then by range start.
- **monitor (Rust).**
  - It reads that JSON into a table of byte-range descriptors per state.
  - It reserves state 0 as an absorbing dead state.
  - It steps through the table with a first-match lookup.
  - It keeps a u32 copy of the DFA for its binary cache.
  - `validate_stream` requires every line to be matched in full and returns the lines joined together.
- **automaton-constructor (Rust).** An older copy of the JSON-to-table conversion. It does not give next-only states an entry.
- **dtr.py (Python).**
  - It expands the same JSON into per-symbol transitions, where a later entry overwrites an earlier one.
  - It sends every missing symbol to the dead state `'0'`.

The modules follow the files:

- `Monitor` is monitor/src/lib.rs.
- `MonitorMain` is monitor/src/main.rs.
- `Constructor` is automaton-constructor.
- `Brics` holds the slice of the brics object graph that the Java code reads and writes.
- `Serializer`, `RegexDfaDemo`, `RegexDfaBuilder` and `Dtr` are the Java files and dtr.py.
- `Sorting` is the stable sort of `List.sort` and `Collections.sort`.
- `HexCodec` is `%02x`.
- `CrossFile` holds the facts that connect the tools.

Inputs that come from outside the model are parameters:

- the parsed JSON object;
- the lines of the stream;
- the result of the DFA search;
- the regex library's verdict;
- the SHA-256 digest.

## Model

Paths are relative to the repository root.

| member | source | states |
|---|---|---|
| Monitor.Matches | monitor/src/lib.rs:59-71 | definition: Match hits its one byte, Range every byte from lo to hi; Describe states which bytes a converted entry matches |
| Monitor.New | monitor/src/lib.rs:35-44 | fails with DeadStateDefined exactly when state 0 already has an entry; otherwise keeps start and match states, adds state 0 with the single descriptor 0..255 → 0 and leaves every other entry unchanged |
| Monitor.Lookup | monitor/src/lib.rs:58-75 | the result is the dead state or the target of a descriptor that matches the byte |
| Monitor.LookupIsFirstMatch | monitor/src/lib.rs:58-72 | when descriptor i is the first one matching the byte, the lookup returns its target (list order decides) |
| Monitor.LookupNoMatch | monitor/src/lib.rs:74-75 | without a matching descriptor the lookup returns the dead state |
| Monitor.Step | monitor/src/lib.rs:57-76 | next_state as a value: it panics (StateMissing) exactly when the current state has no entry |
| Monitor.NextState | monitor/src/lib.rs:57-76 | the loop panics (StateMissing) exactly when the current state has no entry; otherwise it returns the target of the first matching descriptor, and the dead state when none matches |
| Monitor.NextStateUnchecked | monitor/src/lib.rs:77-79 | behaves exactly as next_state, panic included |
| Monitor.IsDeadState | monitor/src/lib.rs:83 | definition: the id is the dead state; BuiltSpecialStates states it is 0 for a DFA built from JSON |
| Monitor.IsMatchState | monitor/src/lib.rs:85 | definition: the id is in the match set; BuiltSpecialStates relates it to the file's match_states |
| Monitor.IsStartState | monitor/src/lib.rs:86 | definition: the id is the start state |
| Monitor.IsSpecialState | monitor/src/lib.rs:82 | definition: dead, match or start (quit and accel states are not used) |
| Monitor.PatternLen | monitor/src/lib.rs:88 | definition: always one pattern |
| Monitor.MatchLen | monitor/src/lib.rs:89-91 | definition: 1 on a match state, 0 elsewhere |
| Monitor.HasEmpty | monitor/src/lib.rs:97 | definition: the start state is a match state |
| Monitor.Walk | monitor/src/lib.rs:57-76 | stepping through a closed table from a state with an entry never leaves the table |
| Monitor.ClosedStepsNeverPanic | monitor/src/lib.rs:57-58 | in a closed table no sequence of next_state calls from a state with an entry panics, and it ends in Walk's state |
| Monitor.MissingStatePanics | monitor/src/lib.rs:58 | from a state without an entry the first byte panics |
| Monitor.DeadStateLoops | monitor/src/lib.rs:39-42 | from the dead state every byte leads back to it |
| Monitor.DeadStateAbsorbs | monitor/src/lib.rs:39-42 | from the dead state every input word ends in the dead state |
| Monitor.ToStd | monitor/src/lib.rs:126-129 | a descriptor keeps its target as a u32 |
| Monitor.ToStds | monitor/src/lib.rs:125-129 | the list is converted element by element, order and length kept |
| Monitor.FromStd | monitor/src/lib.rs:143-146 | `StateID::must` succeeds exactly when the target fits a StateID, and then inverts ToStd |
| Monitor.FromStds | monitor/src/lib.rs:142-146 | converting back and forth gives the same list of u32 descriptors |
| Monitor.SerOf | monitor/src/lib.rs:122-138 | same start, dead state, match set and keys; every list is converted; every id fits |
| Monitor.DfaOf | monitor/src/lib.rs:139-155 | defined exactly when every id fits a StateID; then the same ids, match set and keys |
| Monitor.ToStdsInjective | monitor/src/lib.rs:125-129 | two descriptor lists with the same u32 form are equal |
| Monitor.RoundTrip | monitor/src/lib.rs:122-155 | `to_dfa(from(d)) == d` |
| Monitor.FromDfa | monitor/src/lib.rs:122-138 | the loop over the table builds exactly SerOf(dfa) |
| Monitor.ToDfa | monitor/src/lib.rs:139-155 | the loop builds exactly DfaOf(s), and fails where `StateID::must` panics |
| Monitor.Describe | monitor/src/lib.rs:230-231 | Match exactly for a one-byte range; the descriptor matches exactly the bytes of the range; the target is kept |
| Monitor.ConvertJsonTransitions | monitor/src/lib.rs:220-242 | fails exactly when an id does not fit; otherwise every current and every next state has an entry, and each entry lists the descriptors of that state's JSON entries in input order |
| Monitor.DescsFor | monitor/src/lib.rs:224-233 | definition: the descriptors of state k's entries in input order; DescsForPositions and DescsForTargets state their positions and targets |
| Monitor.TableOf | monitor/src/lib.rs:220-241 | definition: an entry for every current and next state; ConvertJsonTransitions is proved to build it |
| Monitor.PrefixStep | monitor/src/lib.rs:224-233 | one more JSON entry adds its states to the sets and its descriptor to its current state's list |
| Monitor.DescsForAbsent | monitor/src/lib.rs:236-239 | a state that is no entry's current state gets an empty list |
| Monitor.DescsForPositions | monitor/src/lib.rs:224-233 | each JSON entry becomes exactly one descriptor of its state's list, at the position given by the earlier entries of that state |
| Monitor.DescsForTargets | monitor/src/lib.rs:228-232 | every descriptor target is some entry's next state |
| Monitor.FromJson | monitor/src/lib.rs:210-218 | fails with IdOutOfRange exactly when an id does not fit; with DeadStateDefined exactly when some entry's current or next state is 0; otherwise Dfa::new of the converted table |
| Monitor.FromJsonClosed | monitor/src/lib.rs:234-240 | a DFA built from JSON is closed: the dead state and every descriptor target have an entry; the start state has one exactly when it is 0 or some entry's current or next state |
| Monitor.UnlistedStartPanics | monitor/src/lib.rs:234-240 | on a non-empty line, the walk from the start state panics exactly when the start state has no entry, and never panics otherwise |
| Monitor.EmptyRegexStartPanics | monitor/src/lib.rs:58 | the JSON with start state 1, match states [1] and no transitions builds a closed DFA, yet next_state panics on any first byte |
| Monitor.WithStartEntry | monitor/src/lib.rs:234-240 | the corrected table always has an entry for the start state |
| Monitor.FromJsonWithStart | monitor/src/lib.rs:210-240 | the corrected construction fails exactly when and how the original fails |
| Monitor.WithStartNeverPanics | monitor/src/lib.rs:234-240 | the corrected DFA keeps every list of the original, adds at most an empty list for the start state, is closed, no walk from its start panics, and it agrees with the original wherever the original does not panic |
| Monitor.BuiltSpecialStates | monitor/src/lib.rs:82-97 | for a DFA built from JSON: the dead state is 0 and always special; start and match states are the file's, so 0 is a match state only when listed; match_len is 1 exactly on listed match states and at most pattern_len; has_empty iff the file's start state is listed as a match state |
| MonitorMain.Verdict | monitor/src/main.rs:97-103 | no panic exactly on a full match for pattern 0; otherwise the panic of the search error, of the partial match, or of no match |
| MonitorMain.ConcatAppend | monitor/src/main.rs:99 | joining two runs of lines is joining their joins |
| MonitorMain.ValidateStream | monitor/src/main.rs:92-106 | succeeds exactly when every line fully matches, and then returns all lines joined; otherwise fails with the panic of the first line that does not match; the empty stream gives the empty string |
| MonitorMain.BoundariesLost | monitor/src/main.rs:99 | two lines produce the same output as their concatenation on one line |
| Constructor.ConvertJsonTransitions | automaton-constructor/src/main.rs:62-74 | fails exactly when an id does not fit; otherwise exactly the current states have an entry, each listing its descriptors in input order |
| Constructor.FromJson | automaton-constructor/src/main.rs:52-60 | fails with IdOutOfRange exactly when an id does not fit; with DeadStateDefined exactly when 0 is a current state; otherwise Dfa::new of that table |
| Constructor.MonitorAddsNextOnlyStates | monitor/src/lib.rs:234-240 | the monitor's table is the constructor's plus an empty list for each next-only state; the two tables agree on every current state |
| Constructor.NextStateZeroContrast | automaton-constructor/src/main.rs:62-74 | a next state 0 that is no current state makes the monitor's construction panic and not the constructor's |
| Constructor.ClosedIffNextStatesCovered | automaton-constructor/src/main.rs:62-74 | the constructor's DFA is closed iff every next state is 0 or a current state |
| Brics.Above | regex-dfa-demo/src/main/java/com/example/regexdfa/RegexDfaDemo.java:88 | a new state lands on a handle that no listed state uses |
| Brics.SigmaStarAccepts | regex-dfa-builder/src/main/java/com/example/regexdfa/RegexDfaBuilder.java:69-84 | the Σ* automaton accepts exactly the strings over 0..255 |
| Brics.SigmaStarValid | regex-dfa-builder/src/main/java/com/example/regexdfa/RegexDfaBuilder.java:72-84 | the Σ* automaton is well formed |
| RegexDfaBuilder.SelectRegex | regex-dfa-builder/src/main/java/com/example/regexdfa/RegexDfaBuilder.java:16-22 | proceeds exactly with one or two arguments, with the first one |
| RegexDfaBuilder.SecondArgumentIgnored | regex-dfa-builder/src/main/java/com/example/regexdfa/RegexDfaBuilder.java:16-22 | a second argument does not change the regex |
| RegexDfaBuilder.CreateSigmaStarAutomaton | regex-dfa-builder/src/main/java/com/example/regexdfa/RegexDfaBuilder.java:72-84 | builds one accepting initial state with a 0..255 self-loop, marked deterministic |
| RegexDfaBuilder.Unsigned | regex-dfa-builder/src/main/java/com/example/regexdfa/RegexDfaBuilder.java:91 | the value `%02x` formats for a Java byte is congruent to it mod 256 |
| RegexDfaBuilder.Signed | regex-dfa-builder/src/main/java/com/example/regexdfa/RegexDfaBuilder.java:88 | inverse of Unsigned |
| RegexDfaBuilder.UnsignedInjective | regex-dfa-builder/src/main/java/com/example/regexdfa/RegexDfaBuilder.java:91 | distinct bytes print differently |
| RegexDfaBuilder.HexOf | regex-dfa-builder/src/main/java/com/example/regexdfa/RegexDfaBuilder.java:89-93 | two hex characters per byte |
| RegexDfaBuilder.HexOfCons | regex-dfa-builder/src/main/java/com/example/regexdfa/RegexDfaBuilder.java:90-92 | the first two characters encode the first byte and the rest encodes the rest |
| RegexDfaBuilder.HexOfAt | regex-dfa-builder/src/main/java/com/example/regexdfa/RegexDfaBuilder.java:90-92 | characters 2i and 2i+1 are the two digits of byte i |
| RegexDfaBuilder.Unhex | regex-dfa-builder/src/main/java/com/example/regexdfa/RegexDfaBuilder.java:89-93 | reading back gives one byte per two characters |
| RegexDfaBuilder.UnhexHexOf | regex-dfa-builder/src/main/java/com/example/regexdfa/RegexDfaBuilder.java:86-94 | the digest is recovered from its hex string, so the encoding loses nothing |
| RegexDfaBuilder.UnhexPair | regex-dfa-builder/src/main/java/com/example/regexdfa/RegexDfaBuilder.java:91 | two digits in front decode to one byte in front |
| RegexDfaBuilder.Sha256Hex | regex-dfa-builder/src/main/java/com/example/regexdfa/RegexDfaBuilder.java:86-94 | the StringBuilder loop produces HexOf of the digest |
| RegexDfaBuilder.OutputFilename | regex-dfa-builder/src/main/java/com/example/regexdfa/RegexDfaBuilder.java:56-57 | defined exactly when the hex has at least 8 characters; then 17 characters: `dfa-`, the first 8 hex digits, `.json` |
| RegexDfaBuilder.FilenameCollision | regex-dfa-builder/src/main/java/com/example/regexdfa/RegexDfaBuilder.java:56-57 | two regexes share an output file iff their hex strings share the first 8 digits |
| RegexDfaBuilder.DigestNamesFile | regex-dfa-builder/src/main/java/com/example/regexdfa/RegexDfaBuilder.java:56-57 | a 32-byte digest always names a file, after the hex of its first four bytes |
| RegexDfaBuilder.HexOfPrefix | regex-dfa-builder/src/main/java/com/example/regexdfa/RegexDfaBuilder.java:89-93 | the first 2n digits encode the first n bytes |
| RegexDfaBuilder.Run | regex-dfa-builder/src/main/java/com/example/regexdfa/RegexDfaBuilder.java:15-67 | usage text exactly on a wrong argument count; the file is written and named exactly when the regex parses, the digest is long enough and writing succeeds; the name is OutputFilename of the digest's hex, and stdout holds two lines, `Automaton serialized to ` + name and then the name |
| RegexDfaBuilder.NameFromFirstArgument | regex-dfa-builder/src/main/java/com/example/regexdfa/RegexDfaBuilder.java:22-59 | with a 32-byte digest and a successful write the file is written, its name depends only on the first argument and has 17 characters |
| RegexDfaBuilder.NameIsLastLine | regex-dfa-demo/src/main/java/com/example/regexdfa/AutomatonSerializer.java:141 | stdout is the serializer's line, a newline, the name and a newline; with the final newline removed it is not the name |
| RegexDfaDemo.CreateSigmaStarAutomaton | regex-dfa-demo/src/main/java/com/example/regexdfa/RegexDfaDemo.java:65-77 | builds one accepting initial state with a 0..255 self-loop, marked deterministic |
| RegexDfaDemo.Gaps | regex-dfa-demo/src/main/java/com/example/regexdfa/RegexDfaDemo.java:105-120 | definition: the corrected gap scan, which stops after a transition ending at the last char; GapsGoToGarbage and GapsCoverOnce state what it adds |
| RegexDfaDemo.GapsAsWritten | regex-dfa-demo/src/main/java/com/example/regexdfa/RegexDfaDemo.java:105-120 | definition: the scan as the loop is written, with the wrapped cursor's trailing gap; AsWrittenAddsFullRange states how it differs |
| RegexDfaDemo.FindGaps | regex-dfa-demo/src/main/java/com/example/regexdfa/RegexDfaDemo.java:99-120 | the gaps added to a state are the gap scan over its transitions sorted by min |
| RegexDfaDemo.ScanGaps | regex-dfa-demo/src/main/java/com/example/regexdfa/RegexDfaDemo.java:105-120 | the cursor loop adds exactly Gaps(sorted, 0, g), the scan that stops after a transition ending at the last char |
| RegexDfaDemo.GapBefore | regex-dfa-demo/src/main/java/com/example/regexdfa/RegexDfaDemo.java:108-111 | a gap exists exactly when the cursor is below the transition's min, and it spans cursor..min-1 |
| RegexDfaDemo.ScanStep | regex-dfa-demo/src/main/java/com/example/regexdfa/RegexDfaDemo.java:106-114 | one round of the scan keeps the accumulated gaps equal to the full scan |
| RegexDfaDemo.SomeUpToExists | regex-dfa-demo/src/main/java/com/example/regexdfa/RegexDfaDemo.java:94-119 | the flag raised in the loop means some of the first n states had a gap |
| RegexDfaDemo.Completed | regex-dfa-demo/src/main/java/com/example/regexdfa/RegexDfaDemo.java:83-133 | definition: every state completed, the garbage state added when some gap exists; CompleteDfa computes it and the lemmas below state its properties |
| RegexDfaDemo.CompleteDfa | regex-dfa-demo/src/main/java/com/example/regexdfa/RegexDfaDemo.java:83-133 | the method computes Completed(a) and its garbageStateNeeded flag |
| RegexDfaDemo.CompleteStates | regex-dfa-demo/src/main/java/com/example/regexdfa/RegexDfaDemo.java:97-121 | every state gets its gaps; the flag says whether any state had one |
| RegexDfaDemo.CompleteListed | regex-dfa-demo/src/main/java/com/example/regexdfa/RegexDfaDemo.java:98-121 | the loop completes every listed state and keeps the key set |
| RegexDfaDemo.CompleteState | regex-dfa-demo/src/main/java/com/example/regexdfa/RegexDfaDemo.java:99-120 | appends the state's gaps; reports whether any was added |
| RegexDfaDemo.CompletedInfoByIndex | regex-dfa-demo/src/main/java/com/example/regexdfa/RegexDfaDemo.java:97-98 | completing every listed state completes every state |
| RegexDfaDemo.NeededIffSomeGap | regex-dfa-demo/src/main/java/com/example/regexdfa/RegexDfaDemo.java:94-119 | the flag is set iff some state has a gap |
| RegexDfaDemo.GarbageIsFreshSink | regex-dfa-demo/src/main/java/com/example/regexdfa/RegexDfaDemo.java:88-92 | the garbage state is new, non-accepting and loops on 0..255 |
| RegexDfaDemo.CompletionOnlyAdds | regex-dfa-demo/src/main/java/com/example/regexdfa/RegexDfaDemo.java:85 | the initial state, the listed states, the accept flags and the existing transitions are kept; only transitions are appended |
| RegexDfaDemo.CompletedShape | regex-dfa-demo/src/main/java/com/example/regexdfa/RegexDfaDemo.java:123-131 | the garbage state is listed after the old states exactly when the flag is set |
| RegexDfaDemo.CompletedEntry | regex-dfa-demo/src/main/java/com/example/regexdfa/RegexDfaDemo.java:98-120 | every old state becomes its completed form |
| RegexDfaDemo.FlagIffGapAdded | regex-dfa-demo/src/main/java/com/example/regexdfa/RegexDfaDemo.java:110-119 | the flag is set iff some state got more transitions |
| RegexDfaDemo.EmptyStateGetsFullGap | regex-dfa-demo/src/main/java/com/example/regexdfa/RegexDfaDemo.java:117-119 | a state without transitions gets exactly 0..255 → garbage |
| RegexDfaDemo.CompletedValid | regex-dfa-demo/src/main/java/com/example/regexdfa/RegexDfaDemo.java:83-133 | the completed automaton is well formed (every target listed, ranges ordered, states distinct) |
| RegexDfaDemo.CompletedTransition | regex-dfa-demo/src/main/java/com/example/regexdfa/RegexDfaDemo.java:109-118 | every new target is an old state or the garbage state of a state with gaps |
| RegexDfaDemo.GapsGoToGarbage | regex-dfa-demo/src/main/java/com/example/regexdfa/RegexDfaDemo.java:109-118 | every added transition leads to the garbage state and has min <= max |
| RegexDfaDemo.DisjointCoverAtMostOnce | regex-dfa-demo/src/main/java/com/example/regexdfa/RegexDfaDemo.java:99-102 | pairwise disjoint transitions cover each byte at most once |
| RegexDfaDemo.SortedDisjointChain | regex-dfa-demo/src/main/java/com/example/regexdfa/RegexDfaDemo.java:102 | sorted by min, disjoint char ranges form an ascending chain, and stay within 0..255 when they were |
| RegexDfaDemo.GapsCoverOnce | regex-dfa-demo/src/main/java/com/example/regexdfa/RegexDfaDemo.java:105-120 | a chain of char ranges together with its gaps covers every byte from the cursor on exactly once, and no byte below it |
| RegexDfaDemo.ChainTail | regex-dfa-demo/src/main/java/com/example/regexdfa/RegexDfaDemo.java:112-114 | the rest of a chain is a chain that starts above the cursor the head leaves |
| RegexDfaDemo.CoverStep | regex-dfa-demo/src/main/java/com/example/regexdfa/RegexDfaDemo.java:106-114 | a range and the gap in front of it extend the cover of the rest down to the cursor |
| RegexDfaDemo.ChainFirstBelowNext | regex-dfa-demo/src/main/java/com/example/regexdfa/RegexDfaDemo.java:112-113 | a range followed by another in the chain ends below the last char |
| RegexDfaDemo.LastCharCoverOnce | regex-dfa-demo/src/main/java/com/example/regexdfa/RegexDfaDemo.java:112-113 | a chain whose first range ends at the last char has no other range, and with its gap covers every byte from the cursor on once |
| RegexDfaDemo.GapsInBytes | regex-dfa-demo/src/main/java/com/example/regexdfa/RegexDfaDemo.java:109-118 | the gaps of byte ranges stay within 0..255 |
| RegexDfaDemo.CompletedStatePartitions | regex-dfa-demo/src/main/java/com/example/regexdfa/RegexDfaDemo.java:99-120 | a completed state whose char ranges are disjoint covers every byte 0..255 exactly once; its ranges stay within 0..255 when they were |
| RegexDfaDemo.CompleteDfaPartitions | regex-dfa-demo/src/main/java/com/example/regexdfa/RegexDfaDemo.java:83-133 | in the completed automaton every state whose char ranges are disjoint, including ranges reaching `\uFFFF`, covers every byte 0..255 exactly once |
| RegexDfaDemo.GapsAgreeBelowMaxChar | regex-dfa-demo/src/main/java/com/example/regexdfa/RegexDfaDemo.java:112-117 | the loop as written and the corrected scan agree when no transition ends at the last char |
| RegexDfaDemo.AsWrittenOverlapsFullRange | regex-dfa-demo/src/main/java/com/example/regexdfa/RegexDfaDemo.java:112-118 | for the single transition 0..\uFFFF the loop as written leaves the state with 0..\uFFFF and 0..255 → garbage, so byte 0 is covered twice; the corrected scan adds nothing |
| RegexDfaDemo.CompletedStateAsWritten | regex-dfa-demo/src/main/java/com/example/regexdfa/RegexDfaDemo.java:99-120 | definition: a state completed by the loop as written, each gap put into the state's set of transitions by AddTransition; AsWrittenState states what it leaves |
| RegexDfaDemo.AsWrittenAddsFullRange | regex-dfa-demo/src/main/java/com/example/regexdfa/RegexDfaDemo.java:112-118 | once any transition ends at the last char, the loop as written adds 0..255 → garbage on top of the corrected gaps |
| RegexDfaDemo.SortedKeepsLastChar | regex-dfa-demo/src/main/java/com/example/regexdfa/RegexDfaDemo.java:102 | sorting keeps a transition that ends at the last char |
| RegexDfaDemo.AsWrittenByte | regex-dfa-demo/src/main/java/com/example/regexdfa/RegexDfaDemo.java:117-118 | a 0..255 range appended to a list of transitions adds exactly one cover to every byte 0..255 |
| RegexDfaDemo.LowestMinIs | regex-dfa-demo/src/main/java/com/example/regexdfa/RegexDfaDemo.java:102 | definition: the smallest lower bound among a state's ranges |
| RegexDfaDemo.SortedLowest | regex-dfa-demo/src/main/java/com/example/regexdfa/RegexDfaDemo.java:102 | after sorting by min, the first range has the smallest lower bound, and that bound is unique |
| RegexDfaDemo.MinsAscendFrom | regex-dfa-demo/src/main/java/com/example/regexdfa/RegexDfaDemo.java:105-120 | definition: ranges starting at or above a cursor, in strictly ascending order |
| RegexDfaDemo.AscendConcat | regex-dfa-demo/src/main/java/com/example/regexdfa/RegexDfaDemo.java:108-112 | a gap at the cursor in front of ranges starting further up keeps the ascending order |
| RegexDfaDemo.GapsAscending | regex-dfa-demo/src/main/java/com/example/regexdfa/RegexDfaDemo.java:105-120 | the gaps of a chain start at or above the cursor, in strictly ascending order, so no two are equal |
| RegexDfaDemo.FullGapIffFirstAt256 | regex-dfa-demo/src/main/java/com/example/regexdfa/RegexDfaDemo.java:108-109 | among the gaps of a sorted chain, 0..255 → garbage occurs iff the first range starts at `\u0100` |
| RegexDfaDemo.FullGapLeading | regex-dfa-demo/src/main/java/com/example/regexdfa/RegexDfaDemo.java:108-109 | when the first range starts above 0, the first gap starts at 0 and ends one below it, and no other gap starts at 0 |
| RegexDfaDemo.FullGapAbsentFromZero | regex-dfa-demo/src/main/java/com/example/regexdfa/RegexDfaDemo.java:108-113 | when the first range starts at 0, no gap starts at 0 |
| RegexDfaDemo.AsWrittenState | regex-dfa-demo/src/main/java/com/example/regexdfa/RegexDfaDemo.java:112-118 | with a range ending at `\uFFFF` and a garbage state no transition leads to, the loop as written leaves the corrected completion plus 0..255 → garbage, or exactly the corrected completion when the lowest range starts at `\u0100` (the set already holds that gap) |
| RegexDfaDemo.AsWrittenCoversTwice | regex-dfa-demo/src/main/java/com/example/regexdfa/RegexDfaDemo.java:112-118 | for a state with disjoint ranges one of which ends at `\uFFFF`, and a garbage state no transition leads to, the corrected scan covers every byte 0..255 once; the loop as written covers every byte twice, or once when the lowest range starts at `\u0100` |
| RegexDfaDemo.CompleteDfaAsWrittenCoversTwice | regex-dfa-demo/src/main/java/com/example/regexdfa/RegexDfaDemo.java:83-133 | in an automaton, for a state with disjoint ranges one of which ends at `\uFFFF`, the loop as written with the fresh garbage state covers every byte 0..255 twice, or once when the state's lowest range starts at `\u0100` |
| RegexDfaDemo.AsWrittenAbsorbedAt256 | regex-dfa-demo/src/main/java/com/example/regexdfa/RegexDfaDemo.java:109-118 | for the single transition `\u0100..\uFFFF` both scans add 0..255 → garbage, and the set keeps it once, so the loop as written gives the corrected state |
| RegexDfaDemo.AddTransition | regex-dfa-demo/src/main/java/com/example/regexdfa/RegexDfaDemo.java:109 | `addTransition` puts a transition into the state's set: the result holds exactly the old transitions and the new one, and grows by one exactly when the new one was absent |
| RegexDfaDemo.AddTransitions | regex-dfa-demo/src/main/java/com/example/regexdfa/RegexDfaDemo.java:105-118 | definition: the scan's `addTransition` calls, in order |
| RegexDfaDemo.AddTransitionsAppend | regex-dfa-demo/src/main/java/com/example/regexdfa/RegexDfaDemo.java:105-118 | adding two runs of transitions one after the other is adding their concatenation |
| RegexDfaDemo.AddFresh | regex-dfa-demo/src/main/java/com/example/regexdfa/RegexDfaDemo.java:109 | transitions that are new and pairwise distinct are appended to the list unchanged |
| RegexDfaDemo.NoneTo | regex-dfa-demo/src/main/java/com/example/regexdfa/RegexDfaDemo.java:88-92 | definition: no transition leads to the garbage state, because it is fresh |
| RegexDfaDemo.CompletedStateAddsFresh | regex-dfa-demo/src/main/java/com/example/regexdfa/RegexDfaDemo.java:99-120 | with a garbage state no transition leads to, adding the corrected gaps to the set appends them, so the list model and brics' set agree for the corrected scan |
| Serializer.Comment | regex-dfa-demo/src/main/java/com/example/regexdfa/AutomatonSerializer.java:133 | the regex appears verbatim between two quotes at the end, with nothing escaped |
| Serializer.Serialized | regex-dfa-demo/src/main/java/com/example/regexdfa/AutomatonSerializer.java:95-134 | definition: comment, start id, sorted match ids and sorted table; SerializeToJson builds it and the lemmas below state its properties |
| Serializer.Announcement | regex-dfa-demo/src/main/java/com/example/regexdfa/AutomatonSerializer.java:141 | definition: the line printed after writing the file |
| Serializer.IndexOf | regex-dfa-demo/src/main/java/com/example/regexdfa/AutomatonSerializer.java:98-101 | the first position of a listed state |
| Serializer.IdBijective | regex-dfa-demo/src/main/java/com/example/regexdfa/AutomatonSerializer.java:97-101 | ids lie in 1..n, the state at index i gets i+1, and distinct states get distinct ids |
| Serializer.IdAt | regex-dfa-demo/src/main/java/com/example/regexdfa/AutomatonSerializer.java:100 | the state at index i gets id i+1 |
| Serializer.NumberStates | regex-dfa-demo/src/main/java/com/example/regexdfa/AutomatonSerializer.java:97-101 | the loop maps exactly the listed states, the one at index i to i+1 |
| Serializer.AcceptStates | regex-dfa-demo/src/main/java/com/example/regexdfa/AutomatonSerializer.java:108 | exactly the accepting states of the list |
| Serializer.SerializeToJson | regex-dfa-demo/src/main/java/com/example/regexdfa/AutomatonSerializer.java:95-134 | the method builds exactly Serialized(a, regex) |
| Serializer.CollectMatchStates | regex-dfa-demo/src/main/java/com/example/regexdfa/AutomatonSerializer.java:107-110 | the loop collects the ids of the accepting states in list order |
| Serializer.LookUpAll | regex-dfa-demo/src/main/java/com/example/regexdfa/AutomatonSerializer.java:108-110 | one `stateMap.get` per state, in order |
| Serializer.AcceptIdsByLookup | regex-dfa-demo/src/main/java/com/example/regexdfa/AutomatonSerializer.java:108-110 | looking the accepting states up in the map gives their ids |
| Serializer.BuildTransitionTable | regex-dfa-demo/src/main/java/com/example/regexdfa/AutomatonSerializer.java:114-122 | the nested loop emits the entries of every listed state in order |
| Serializer.AddStateEntries | regex-dfa-demo/src/main/java/com/example/regexdfa/AutomatonSerializer.java:116-121 | the inner loop appends one entry per transition of the state |
| Serializer.StartStateIsInitialId | regex-dfa-demo/src/main/java/com/example/regexdfa/AutomatonSerializer.java:104 | start_state is the initial state's id, in 1..n |
| Serializer.IdInjective | regex-dfa-demo/src/main/java/com/example/regexdfa/AutomatonSerializer.java:97-101 | two listed states with the same id are the same state |
| Serializer.MatchStatesAscending | regex-dfa-demo/src/main/java/com/example/regexdfa/AutomatonSerializer.java:107-111 | match_states is strictly ascending |
| Serializer.MatchStatesExact | regex-dfa-demo/src/main/java/com/example/regexdfa/AutomatonSerializer.java:107-111 | match_states holds exactly the ids of the accepting states |
| Serializer.SortedSameElements | regex-dfa-demo/src/main/java/com/example/regexdfa/AutomatonSerializer.java:111 | sorting keeps the elements |
| Serializer.AcceptIdsExact | regex-dfa-demo/src/main/java/com/example/regexdfa/AutomatonSerializer.java:107-110 | an id is collected iff it is the id of an accepting state |
| Serializer.AcceptIdIsAccepting | regex-dfa-demo/src/main/java/com/example/regexdfa/AutomatonSerializer.java:108-109 | every collected id belongs to an accepting state |
| Serializer.AcceptingHasId | regex-dfa-demo/src/main/java/com/example/regexdfa/AutomatonSerializer.java:108-109 | every accepting state's id is collected |
| Serializer.AcceptStatesDistinct | regex-dfa-demo/src/main/java/com/example/regexdfa/AutomatonSerializer.java:108 | the accepting states are listed once each |
| Serializer.MatchStatesIndependentOfOrder | regex-dfa-demo/src/main/java/com/example/regexdfa/AutomatonSerializer.java:107-111 | in whatever order `getAcceptStates()` lists them, match_states comes out the same |
| Serializer.EntriesOnePerTransition | regex-dfa-demo/src/main/java/com/example/regexdfa/AutomatonSerializer.java:114-122 | one entry per transition: transition k of state i sits at its own slot, and distinct transitions get distinct slots |
| Serializer.EntriesLength | regex-dfa-demo/src/main/java/com/example/regexdfa/AutomatonSerializer.java:114-122 | the table has as many entries as the states have transitions |
| Serializer.EntryAt | regex-dfa-demo/src/main/java/com/example/regexdfa/AutomatonSerializer.java:115-121 | the entry at a transition's slot is that transition with its ids and bounds |
| Serializer.StateEntryAt | regex-dfa-demo/src/main/java/com/example/regexdfa/AutomatonSerializer.java:116-121 | entry k of a state is its transition k |
| Serializer.EntriesInRange | regex-dfa-demo/src/main/java/com/example/regexdfa/AutomatonSerializer.java:116-120 | every id lies in 1..n and every range is an ordered char range |
| Serializer.EntryKeyIsLexicographic | regex-dfa-demo/src/main/java/com/example/regexdfa/AutomatonSerializer.java:125-130 | the integer sort key orders entries as the comparator does |
| Serializer.TableSortedPermutation | regex-dfa-demo/src/main/java/com/example/regexdfa/AutomatonSerializer.java:114-130 | the sorted table is a permutation of the entries, ordered by current state and then range start, and keeps the input order of equal keys |
| Serializer.TableOrdered | regex-dfa-demo/src/main/java/com/example/regexdfa/AutomatonSerializer.java:125-130 | the sorted table is ordered by current state and then range start |
| Sorting.Insert | regex-dfa-demo/src/main/java/com/example/regexdfa/AutomatonSerializer.java:111 | insertion adds exactly one element |
| Sorting.InsertSorted | regex-dfa-demo/src/main/java/com/example/regexdfa/AutomatonSerializer.java:111 | insertion keeps the order |
| Sorting.SortByKey | regex-dfa-demo/src/main/java/com/example/regexdfa/AutomatonSerializer.java:125-130 | the result is a sorted permutation |
| Sorting.WithKeyInsert | regex-dfa-demo/src/main/java/com/example/regexdfa/AutomatonSerializer.java:125-130 | insertion puts an element after the earlier elements with its key |
| Sorting.SortIsStable | regex-dfa-demo/src/main/java/com/example/regexdfa/AutomatonSerializer.java:125-130 | elements with equal keys keep their relative order (List.sort is stable) |
| Sorting.CountSort | regex-dfa-demo/src/main/java/com/example/regexdfa/RegexDfaDemo.java:102 | sorting keeps the number of elements with any property |
| Sorting.StableSortUnique | regex-dfa-demo/src/main/java/com/example/regexdfa/AutomatonSerializer.java:125-130 | any sorted sequence with the same elements in the same order per key is the sort's result |
| Sorting.SortDistinct | regex-dfa-demo/src/main/java/com/example/regexdfa/AutomatonSerializer.java:111 | distinct integers sort strictly ascending |
| Sorting.StrictlyAscendingUnique | regex-dfa-demo/src/main/java/com/example/regexdfa/AutomatonSerializer.java:111 | two strictly ascending sequences with the same elements are equal |
| HexCodec.HexDigit | regex-dfa-builder/src/main/java/com/example/regexdfa/RegexDfaBuilder.java:91 | the digit is a lowercase hex digit |
| HexCodec.DigitValue | dfa-to-regex/dtr.py:11 | a hex digit has a value 0..15 |
| HexCodec.DigitOfValue | regex-dfa-builder/src/main/java/com/example/regexdfa/RegexDfaBuilder.java:91 | reading a digit back gives its value |
| HexCodec.ValueOfDigit | dfa-to-regex/dtr.py:11 | writing a digit's value gives the digit |
| HexCodec.Hex2 | regex-dfa-builder/src/main/java/com/example/regexdfa/RegexDfaBuilder.java:91 | `%02x` of a byte is two lowercase hex digits |
| HexCodec.Hex2Decodes | regex-dfa-builder/src/main/java/com/example/regexdfa/RegexDfaBuilder.java:91 | the two digits spell the byte back |
| HexCodec.Hex2Injective | regex-dfa-builder/src/main/java/com/example/regexdfa/RegexDfaBuilder.java:91 | distinct bytes have distinct `%02x` forms |
| HexCodec.Hex2OfDigits | dfa-to-regex/dtr.py:11 | any two hex digits are the `%02x` form of the value they spell |
| Dtr.HexNat | dfa-to-regex/dtr.py:11 | Python's hex form has at least one digit |
| Dtr.Format02x | dfa-to-regex/dtr.py:11 | definition: the sign, then the hex digits padded to two; Format02xForm and Format02xOfByte state its form |
| Dtr.ByteToChar | dfa-to-regex/dtr.py:6-11 | definition: printable ASCII as itself, everything else escaped; ByteToCharForm and SymbolByteOfByteToChar state its form and inverse |
| Dtr.HexNatFirstDigit | dfa-to-regex/dtr.py:11 | Python's hex form starts with a hex digit |
| Dtr.Format02xForm | dfa-to-regex/dtr.py:11 | at least two characters, the first a minus sign exactly for a negative value |
| Dtr.ByteToCharForm | dfa-to-regex/dtr.py:6-11 | one character, the value itself, exactly for printable ASCII 32..126; otherwise `\x` followed by at least two more characters |
| Dtr.Format02xOfByte | dfa-to-regex/dtr.py:11 | for a byte, `f'{b:02x}'` is exactly `%02x` |
| Dtr.HexNatLong | dfa-to-regex/dtr.py:11 | values from 256 up print with at least three digits |
| Dtr.SymbolByteSound | dfa-to-regex/dtr.py:6-11 | a symbol read back as a byte is that byte's symbol |
| Dtr.SymbolByteOfByteToChar | dfa-to-regex/dtr.py:6-11 | the symbol of any integer reads back as that integer when it is 0..255 and as nothing otherwise |
| Dtr.EscapedByte | dfa-to-regex/dtr.py:11 | an escaped byte `\xNN` reads back as that byte |
| Dtr.ByteToCharInjective | dfa-to-regex/dtr.py:6-11 | distinct values have distinct symbols when one of them is a byte |
| Dtr.ImageCount | dfa-to-regex/dtr.py:21-22 | an injective function has n distinct images of 0..n-1 |
| Dtr.AllCharsCount | dfa-to-regex/dtr.py:21-22 | `all_chars` has 256 symbols |
| Dtr.LoadDfaFromJson | dfa-to-regex/dtr.py:13-62 | states, input symbols, the totalised transition table, the initial state and the final states handed to `DFA` |
| Dtr.Expand | dfa-to-regex/dtr.py:28-40 | the first loop never gives `'0'` a row; ExpandKeys and ExpandLookup state its rows and targets |
| Dtr.StatesOf | dfa-to-regex/dtr.py:26-34 | definition: `'0'` plus the current and next states of the entries; StatesStep and StatesListed state what each entry adds |
| Dtr.StatesListed | dfa-to-regex/dtr.py:26-34 | `'0'` and every entry's current and next state are listed |
| Dtr.Totalised | dfa-to-regex/dtr.py:43-52 | a row for exactly the listed states, the dead row for `'0'` |
| Dtr.AddEntry | dfa-to-regex/dtr.py:35-40 | the row of curr gains the symbols of the range, all mapped to next; later writes win |
| Dtr.FillRange | dfa-to-regex/dtr.py:38-40 | the byte loop maps every symbol of r_start..r_end to next and keeps the rest of the row |
| Dtr.RangeRowStep | dfa-to-regex/dtr.py:38-40 | one more byte extends the written range by one symbol |
| Dtr.FillMissing | dfa-to-regex/dtr.py:43-49 | every state gets a row in which every symbol missing from `all_chars` goes to `'0'` |
| Dtr.FillRow | dfa-to-regex/dtr.py:46-49 | the row keeps its symbols and maps each undefined symbol to `'0'` |
| Dtr.StatesStep | dfa-to-regex/dtr.py:34 | each entry adds its current and next state to `states` |
| Dtr.ExpandKeys | dfa-to-regex/dtr.py:35-36 | only current states get rows in the first loop, and they are all in `states` |
| Dtr.InImage | dfa-to-regex/dtr.py:38-39 | a byte's symbol is in a range's symbols exactly when the byte is in the range |
| Dtr.ExpandLookup | dfa-to-regex/dtr.py:28-40 | after the first loop a state has a symbol iff some entry of that state covers the byte, and its target is the last such entry's next state |
| Dtr.InAllChars | dfa-to-regex/dtr.py:21-22 | every byte's symbol is in `all_chars` |
| Dtr.DtrTarget | dfa-to-regex/dtr.py:28-52 | the final target of a listed state on a byte is the last covering entry's next state, or `'0'` when there is none |
| Dtr.DeadAbsorbing | dfa-to-regex/dtr.py:52 | `'0'` maps every symbol to itself |
| Dtr.TotalOnAllChars | dfa-to-regex/dtr.py:43-52 | the table has a row for exactly the listed states, and each row is defined on every symbol |
| Dtr.ExpandTargets | dfa-to-regex/dtr.py:38-40 | every written target is some entry's next state |
| Dtr.TotalisedClosed | dfa-to-regex/dtr.py:24-52 | every target of the final table is a listed state |
| Dtr.InitialListed | dfa-to-regex/dtr.py:17-34 | the initial state is listed iff some entry starts or ends in it |
| CrossFile.MonitorReads | monitor/src/lib.rs:194-206 | the monitor's serde accepts the serializer's object exactly when every id is non-negative and every range bound is a u8; the fields are kept |
| CrossFile.EntriesBelowByte | regex-dfa-demo/src/main/java/com/example/regexdfa/AutomatonSerializer.java:119-120 | byte-range transitions give entries whose range ends at most at 255 |
| CrossFile.TableEntries | regex-dfa-demo/src/main/java/com/example/regexdfa/AutomatonSerializer.java:114-130 | sorting does not change which entries there are; their ids lie in 1..n |
| CrossFile.WideTransitionUnreadable | regex-dfa-demo/src/main/java/com/example/regexdfa/AutomatonSerializer.java:119-120 | a transition above 255 gives an entry that the monitor cannot read as u8 |
| CrossFile.SerializedIds | regex-dfa-demo/src/main/java/com/example/regexdfa/AutomatonSerializer.java:97-122 | every id the serializer writes lies in 1..n |
| CrossFile.SerializedReadable | regex-dfa-demo/src/main/java/com/example/regexdfa/AutomatonSerializer.java:114-122 | the monitor can read the serializer's JSON iff every transition stays within 0..255 |
| CrossFile.WideTableUnreadable | regex-dfa-demo/src/main/java/com/example/regexdfa/AutomatonSerializer.java:119-120 | a wide transition anywhere leaves an unreadable entry |
| CrossFile.ByteTableReadable | regex-dfa-demo/src/main/java/com/example/regexdfa/AutomatonSerializer.java:119-120 | with byte-range transitions every entry is readable |
| CrossFile.NoZeroIdBuilds | monitor/src/lib.rs:36-38 | ids from 1 on never trip the state-0 assertion, and they build whenever they fit a StateID |
| CrossFile.SerializedForMonitor | monitor/src/lib.rs:38 | for the serializer's JSON the monitor's read succeeds iff the ranges are bytes; it then never fails on the dead-state assertion, and it builds when there are at most MaxStateId states |
| CrossFile.ToDtr | dfa-to-regex/dtr.py:29-32 | dtr reads the same four fields of each entry |
| CrossFile.LookupConcat | monitor/src/lib.rs:58-75 | a lookup over two lists is decided by the first list when it has a match |
| CrossFile.NoCover | monitor/src/lib.rs:58-75 | when no entry of the state covers the byte, no descriptor matches it |
| CrossFile.FirstMatchIsLastWrite | monitor/src/lib.rs:58-75 | with disjoint ranges per state the monitor's first-match lookup returns the last covering entry's next state, or the dead state |
| CrossFile.LastEntryWins | monitor/src/lib.rs:58-75 | when the last entry covers the byte it is the only one, so the lookup reaches it |
| CrossFile.EarlierEntriesDecide | monitor/src/lib.rs:58-75 | an entry that does not cover the byte does not change the lookup |
| CrossFile.ReadersAgree | dfa-to-regex/dtr.py:38-52 | with disjoint ranges per state the monitor and dtr.py send every byte of every listed state to the same state, with an uncovered byte going to the dead state in both |

## Left out

- Reading files, serde, JSON parsing and writing, bitcode and blake3 are not modelled. The model starts from the parsed object and ends at the object handed to the writer. The binary cache file name is not modelled.
- `line.expect("Error grabbing next line")` in `validate_stream` is not modelled. Lines arrive as byte sequences.
- `try_search_fwd` is a parameter. The regex_automata search that calls `next_state` is not part of this model.
- `next_eoi_state` returns the state it is given, so end of input does not move the DFA. It has no member of its own: a walk simply ends where its last byte leaves it.
- `start_state` returns the stored start state; it is the `start` field.
- `is_quit_state`, `is_accel_state`, `is_utf8` and `is_always_start_anchored` return constants and are not modelled. `match_pattern`'s panic on a non-match state is not modelled either.
- The regex_automata search loop is not part of this model. Monitor.Steps stands for its calls of `next_state`, one per byte from the start state.
- `main` of the monitor and of the constructor are not modelled: argument parsing, `println`, and the `suppress` flag.
- dk.brics.automaton itself is left out: RegExp, intersection, minimize and clone. Object identity becomes handles into a map. `getStates()`, `getAcceptStates()` and the HashSet iteration order are given sequences.
- Brics.Valid: brics' `getStates()` lists the states reachable from the initial state. The model takes the listed states as the automaton's states. The garbage state is appended when some transition leads to it.
- RegexDfaDemo.CompleteDfa: the two `println` messages are not modelled. The flag they depend on is returned instead.
- HashMap and HashSet are maps and sets, except a state's transitions: brics keeps them in a HashSet, and the model keeps them in a list. `addTransition` is modelled as set insertion (RegexDfaDemo.AddTransition), so an equal transition is not added twice. The corrected completion appends, and RegexDfaDemo.CompletedStateAddsFresh proves that this is the same as set insertion. The order of the list is not the set's order. Iteration order is not modelled, except where a loop's result could depend on it, and there the loop runs in an arbitrary order.
- The automata library's `DFA` constructor and `convert_dfa_to_regex` (GNFA) in dtr.py are not part of this model. `load_dfa_from_json` ends at the constructor's arguments.
- Dtr.ByteToChar: Python's `int(b)` of a string is not modelled. Values are integers throughout, and a negative value goes through Python's signed format.
- usize overflow is not modelled. Ids are unbounded naturals until `StateID::must` bounds them.
- The serializer's `_comment` is modelled as a string. The exception that `stateMap.get` of an unlisted state would throw cannot occur for a valid automaton, and is not modelled.

## Findings

| source | as written | input that shows it | evidently intended | confidence | as-written member | corrected member |
|---|---|---|---|---|---|---|
| regex-dfa-demo/src/main/java/com/example/regexdfa/RegexDfaDemo.java:112-118 | after a transition that ends at `\uFFFF`, `currentChar` wraps to 0 and the loop breaks; the trailing check `currentChar <= 255` then holds, so 0..255 → garbage is added to a state whose gaps were already filled, and every byte has two transitions (AsWrittenOverlapsFullRange shows one state). When the lowest range starts at `\u0100`, the first gap already is 0..255 → garbage, and the set keeps one copy (AsWrittenAbsorbedAt256) | a state with disjoint ranges, one ending at `\uFFFF`, whose lowest range does not start at `\u0100`, e.g. the single transition 0..\uFFFF | add no trailing gap when the cursor wrapped; every byte is then covered exactly once | not executed | RegexDfaDemo.CompleteDfaAsWrittenCoversTwice | RegexDfaDemo.CompleteDfaPartitions |
| monitor/src/lib.rs:234-240 | only next states that lack an entry get an empty list; a start state that is no entry's current or next state gets none, so `next_state` panics on the first byte of a line with "Current state not in transition table" | the JSON of the empty regex: start state 1, match states [1], no transitions, and any non-empty line | give the start state an empty list as well, so that a line the DFA rejects leads to the dead state | not executed | Monitor.UnlistedStartPanics | Monitor.WithStartNeverPanics |
