/**
 * The parts of RegexDfaBuilder that the repository writes itself: the
 * argument check of `main`, the Σ* automaton, the hex loop of `sha256Hex`
 * and the `dfa-XXXXXXXX.json` output name. SHA-256, the regex library and
 * the JSON writer are parameters.
 */
module RegexDfaBuilder {
  import opened Wrappers
  import opened Bytes
  import opened HexCodec
  import Brics
  import Serializer

  /** `main` proceeds with one or two arguments and reads only the first. */
  function SelectRegex(args: seq<string>): (r: Option<string>)
    ensures r.Some? <==> 1 <= |args| <= 2
    ensures r.Some? ==> r.value == args[0]
  {
    if |args| == 0 || |args| > 2 then None else Some(args[0])
  }

  /** A second argument is accepted and ignored. */
  lemma SecondArgumentIgnored(regex: string, other: string)
    ensures SelectRegex([regex, other]) == SelectRegex([regex]) == Some(regex)
  {
  }

  /** `createSigmaStarAutomaton`, built with the same setter calls as the demo's. */
  method CreateSigmaStarAutomaton() returns (sigmaStarAutomaton: Brics.Automaton)
    ensures Brics.IsSigmaStar(sigmaStarAutomaton)
  {
    sigmaStarAutomaton := Brics.Automaton(0, [], map[], false);
    var state: Brics.StateRef := 0;
    var s := Brics.State(false, []);
    s := s.(accept := true);
    s := s.(transitions := s.transitions + [Brics.Transition(0, 255, state)]);
    assert s == Brics.State(true, [Brics.Transition(0, 255, state)]);
    sigmaStarAutomaton := sigmaStarAutomaton.(initial := state, states := [state], info := map[state := s]);
    sigmaStarAutomaton := sigmaStarAutomaton.(deterministic := true);
  }

  // ---- the hex loop of sha256Hex ----

  /** A Java `byte`: the digest comes back as signed bytes. */
  type JavaByte = b: int | -128 <= b < 128

  /** The value `%x` formats for a `byte`: negative values have 2^8 added. */
  function Unsigned(b: JavaByte): (u: Byte)
    ensures u % 256 == b % 256
  {
    if b < 0 then b + 256 else b
  }

  /** The byte with the given unsigned value, the inverse of Unsigned. */
  function Signed(u: Byte): (b: JavaByte)
    ensures Unsigned(b) == u
  {
    if u >= 128 then u - 256 else u
  }

  lemma UnsignedInjective(a: JavaByte, b: JavaByte)
    requires Unsigned(a) == Unsigned(b)
    ensures a == b
  {
  }

  /** `%02x` of every digest byte, concatenated in order. */
  function HexOf(digest: seq<JavaByte>): (hex: string)
    ensures |hex| == 2 * |digest|
  {
    if digest == [] then ""
    else Hex2(Unsigned(digest[0])) + HexOf(digest[1..])
  }

  /** The first two characters are the digits of the first byte, the rest encodes the rest. */
  lemma HexOfCons(digest: seq<JavaByte>)
    requires digest != []
    ensures HexOf(digest) == Hex2(Unsigned(digest[0])) + HexOf(digest[1..])
    ensures HexOf(digest)[..2] == Hex2(Unsigned(digest[0]))
    ensures HexOf(digest)[2..] == HexOf(digest[1..])
  {
    var head, tail := Hex2(Unsigned(digest[0])), HexOf(digest[1..]);
    assert (head + tail)[..2] == head;
    assert (head + tail)[2..] == tail;
  }

  /** The characters 2i and 2i+1 of the encoding are the two digits of byte i. */
  lemma {:induction false} HexOfAt(digest: seq<JavaByte>, i: nat)
    requires i < |digest|
    ensures HexOf(digest)[2 * i..2 * i + 2] == Hex2(Unsigned(digest[i]))
  {
    HexOfCons(digest);
    if i > 0 {
      HexOfAt(digest[1..], i - 1);
      SliceRight(Hex2(Unsigned(digest[0])), HexOf(digest[1..]), 2 * i, 2 * i + 2);
    }
  }

  lemma SliceRight(x: string, y: string, lo: nat, hi: nat)
    requires |x| <= lo <= hi <= |x| + |y|
    ensures (x + y)[lo..hi] == y[lo - |x|..hi - |x|]
  {
  }

  /** Reading the digits back, two at a time; None on an odd length or a non-digit. */
  function Unhex(hex: string): (bytes: Option<seq<JavaByte>>)
    ensures bytes.Some? ==> |bytes.value| == |hex| / 2
  {
    if hex == [] then Some([])
    else if |hex| < 2 || !IsHexDigit(hex[0]) || !IsHexDigit(hex[1]) then None
    else match Unhex(hex[2..])
      case None => None
      case Some(rest) => Some([Signed(16 * DigitValue(hex[0]) + DigitValue(hex[1]))] + rest)
  }

  /** The encoding loses nothing: the digest is recovered from its hex string. */
  lemma {:induction false} UnhexHexOf(digest: seq<JavaByte>)
    ensures Unhex(HexOf(digest)) == Some(digest)
  {
    if digest == [] {
      assert HexOf(digest) == "";
    } else {
      var d0 := digest[0];
      var pair, rest := Hex2(Unsigned(d0)), HexOf(digest[1..]);
      HexOfCons(digest);
      UnhexHexOf(digest[1..]);
      Hex2Decodes(Unsigned(d0));
      UnsignedInjective(Signed(Unsigned(d0)), d0);
      UnhexPair(pair, rest);
      var decoded := [Signed(16 * DigitValue(pair[0]) + DigitValue(pair[1]))] + digest[1..];
      assert decoded == digest;
      assert Unhex(pair + rest) == Some(digest);
    }
  }

  /** Two digits in front decode to one byte in front. */
  lemma UnhexPair(pair: string, rest: string)
    requires |pair| == 2 && IsHexDigit(pair[0]) && IsHexDigit(pair[1]) && Unhex(rest).Some?
    ensures Unhex(pair + rest) == Some([Signed(16 * DigitValue(pair[0]) + DigitValue(pair[1]))] + Unhex(rest).value)
  {
    var hex := pair + rest;
    assert hex[0] == pair[0] && hex[1] == pair[1] && hex[2..] == rest;
  }

  /** The StringBuilder loop of `sha256Hex` over the digest bytes. */
  method Sha256Hex(hash: seq<JavaByte>) returns (hex: string)
    ensures hex == HexOf(hash)
  {
    hex := "";
    for i := 0 to |hash|
      invariant hex + HexOf(hash[i..]) == HexOf(hash)
    {
      assert hash[i..][1..] == hash[i + 1..];
      hex := hex + Hex2(Unsigned(hash[i]));
    }
    assert hash[|hash|..] == [];
  }

  // ---- the output file name ----

  /**
   * `"dfa-" + hex.substring(0, 8) + ".json"`; `substring` throws on a string
   * shorter than 8, which `main` catches (None).
   */
  function OutputFilename(hex: string): (name: Option<string>)
    ensures name.Some? <==> |hex| >= 8
    ensures name.Some? ==> |name.value| == 17 && name.value[..4] == "dfa-"
                           && name.value[4..12] == hex[..8] && name.value[12..] == ".json"
  {
    if |hex| < 8 then None else Some("dfa-" + hex[..8] + ".json")
  }

  /** Two regexes share an output file exactly when their hex strings share the first 8 digits. */
  lemma FilenameCollision(hex1: string, hex2: string)
    requires |hex1| >= 8 && |hex2| >= 8
    ensures OutputFilename(hex1) == OutputFilename(hex2) <==> hex1[..8] == hex2[..8]
  {
    if OutputFilename(hex1) == OutputFilename(hex2) {
      assert OutputFilename(hex1).value[4..12] == OutputFilename(hex2).value[4..12];
    }
  }

  /** A SHA-256 digest has 32 bytes, so the name always exists and carries the hex of the first four. */
  lemma DigestNamesFile(digest: seq<JavaByte>)
    requires |digest| == 32
    ensures OutputFilename(HexOf(digest)).Some?
    ensures OutputFilename(HexOf(digest)).value[4..12] == HexOf(digest[..4])
  {
    HexOfPrefix(digest, 4);
  }

  /** The first 2n digits encode the first n bytes. */
  lemma {:induction false} HexOfPrefix(digest: seq<JavaByte>, n: nat)
    requires n <= |digest|
    ensures HexOf(digest)[..2 * n] == HexOf(digest[..n])
  {
    if n > 0 {
      HexOfCons(digest);
      HexOfCons(digest[..n]);
      HexOfPrefix(digest[1..], n - 1);
      assert digest[..n][1..] == digest[1..][..n - 1];
      assert digest[..n][0] == digest[0];
      SlicePrefix(Hex2(Unsigned(digest[0])), HexOf(digest[1..]), 2 * n);
    }
  }

  lemma SlicePrefix(x: string, y: string, hi: nat)
    requires |x| <= hi <= |x| + |y|
    ensures (x + y)[..hi] == x + y[..hi - |x|]
  {
  }

  // ---- main ----

  datatype Outcome =
    | Usage      // usage text on stderr, nothing else
    | Error      // an exception caught and reported
    | Printed(filename: string, stdout: seq<string>)
                 // the JSON file written; stdout holds the serializer's line, then the name

  /**
   * `main` with the library calls as parameters: whether the regex library
   * accepts the pattern, the SHA-256 digest of a string, and whether
   * serialization returns normally.
   */
  function Run(args: seq<string>, parses: string -> bool, sha256: string -> seq<JavaByte>, written: bool): (o: Outcome)
    ensures o == Usage <==> !(1 <= |args| <= 2)
    ensures o.Printed? <==> 1 <= |args| <= 2 && parses(args[0]) && |sha256(args[0])| >= 4 && written
    ensures o.Printed? ==> OutputFilename(HexOf(sha256(args[0]))) == Some(o.filename)
    ensures o.Printed? ==> o.stdout == [Serializer.Announcement(o.filename), o.filename]
  {
    match SelectRegex(args)
    case None => Usage
    case Some(inputRegex) =>
      if !parses(inputRegex) then Error
      else match OutputFilename(HexOf(sha256(inputRegex)))
        case None => Error
        case Some(outputFilename) =>
          if written then Printed(outputFilename, [Serializer.Announcement(outputFilename), outputFilename])
          else Error
  }

  /** With a real SHA-256 the file name depends only on the first argument. */
  lemma NameFromFirstArgument(args: seq<string>, parses: string -> bool, sha256: string -> seq<JavaByte>)
    requires 1 <= |args| <= 2 && parses(args[0]) && |sha256(args[0])| == 32
    ensures Run(args, parses, sha256, true).Printed?
    ensures Run(args, parses, sha256, true).filename == OutputFilename(HexOf(sha256(args[0]))).value
    ensures |Run(args, parses, sha256, true).filename| == 17
  {
  }

  /** The bytes written to stdout: every line followed by a newline. */
  function StdoutText(lines: seq<string>): string {
    if lines == [] then "" else lines[0] + "\n" + StdoutText(lines[1..])
  }

  /**
   * The name is only the last line of stdout: the whole output, without its
   * final newline, also holds the serializer's line and so is not the name.
   */
  lemma NameIsLastLine(args: seq<string>, parses: string -> bool, sha256: string -> seq<JavaByte>, written: bool)
    requires Run(args, parses, sha256, written).Printed?
    ensures var o := Run(args, parses, sha256, written);
      StdoutText(o.stdout) == Serializer.Announcement(o.filename) + "\n" + o.filename + "\n"
    ensures var o := Run(args, parses, sha256, written);
      StdoutText(o.stdout)[..|StdoutText(o.stdout)| - 1] != o.filename
  {
    var o := Run(args, parses, sha256, written);
    var a := Serializer.Announcement(o.filename);
    assert o.stdout[1..] == [o.filename];
    assert StdoutText([o.filename]) == o.filename + "\n" + StdoutText([]) by {
      assert [o.filename][1..] == [];
    }
    assert StdoutText(o.stdout) == a + "\n" + StdoutText([o.filename]);
    var text := StdoutText(o.stdout);
    assert |text[..|text| - 1]| == |a| + 1 + |o.filename|;
  }
}
