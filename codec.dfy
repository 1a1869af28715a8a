/**
 * The payload codec of scratch/tp4.cc.
 *
 * `createPacket` turns a vector of numbers into packet bytes: each value is
 * rendered as text and followed by ',' or, after the last one, by a NUL byte.
 * `extractPayload` reads the bytes back as a C string (so it stops at the
 * first NUL), splits that text at ',' and converts every segment to a number.
 *
 * Numbers are kept abstract: a value of type V is written out by `render`
 * (the `ostream << double` of the source) and read back by `parse` (its
 * `std::atof`). Both are parameters: every law below is stated for an
 * arbitrary `render` and `parse`. The round-trip laws assume only that a
 * rendered value holds no ',' and no NUL (`IsToken`); the identity law also
 * assumes that `parse` undoes `render`.
 */
module Codec {
  import opened Framing

  /** Written after every value but the last. */
  const Separator: char := ','

  /**
   * The delimiters the decoder splits at. The source passes the literal
   * ",\0 " to `boost::is_any_of`; the NUL embedded in it ends the literal,
   * so the set is the separator alone. `LiteralDelimiters` is the reading
   * that takes all three characters; `SegmentsUnderLiteralDelimiters` shows
   * that the two readings agree on every text without a space.
   */
  const SplitDelimiters: set<char> := {Separator}
  const LiteralDelimiters: set<char> := {Separator, NullTerminator, ' '}

  /** A rendered value that the framing carries unchanged: no separator, no NUL. */
  predicate IsToken(t: seq<char>)
  {
    forall k | 0 <= k < |t| :: t[k] != Separator && t[k] != NullTerminator
  }

  predicate AllTokens(tokens: seq<seq<char>>)
  {
    forall k | 0 <= k < |tokens| :: IsToken(tokens[k])
  }

  /** The rendered text of every value of the payload, in order. */
  function Tokens<V>(payload: seq<V>, render: V -> seq<char>): seq<seq<char>>
  {
    seq(|payload|, k requires 0 <= k < |payload| => render(payload[k]))
  }

  /** The packet bytes for a payload already rendered as `tokens`. */
  function Encode(tokens: seq<seq<char>>): seq<char>
  {
    if tokens == [] then [] else Join(tokens, Separator) + [NullTerminator]
  }

  /** The text segments a decoder sees in `packet`. */
  function Segments(packet: seq<char>): seq<seq<char>>
    requires NullTerminator in packet
  {
    Split(UntilNul(packet), SplitDelimiters)
  }

  /** The values a decoder reads from `packet`: each segment parsed. */
  function Decode<V>(packet: seq<char>, parse: seq<char> -> V): seq<V>
    requires NullTerminator in packet
  {
    var segments := Segments(packet);
    seq(|segments|, k requires 0 <= k < |segments| => parse(segments[k]))
  }

  // ---------------------------------------------------------------------------
  // The two functions of the source

  /** `createPacket`: the payload rendered value by value into one packet. */
  method CreatePacket<V>(payload: seq<V>, render: V -> seq<char>) returns (packet: seq<char>)
    ensures packet == Encode(Tokens(payload, render))
  {
    ghost var tokens := Tokens(payload, render);
    var msg: seq<char> := [];
    for i := 0 to |payload|
      invariant i == 0 ==> msg == []
      invariant 0 < i ==> msg == Join(tokens[..i], Separator)
                                 + [if i == |payload| then NullTerminator else Separator]
    {
      assert tokens[..i + 1] == tokens[..i] + [tokens[i]];
      if i > 0 {
        JoinSnoc(tokens[..i], tokens[i], Separator);
      }
      msg := msg + render(payload[i]);
      if i == |payload| - 1 {
        msg := msg + [NullTerminator];
      } else {
        msg := msg + [Separator];
      }
    }
    assert 0 < |payload| ==> tokens[..|payload|] == tokens;
    packet := msg;
  }

  /** `extractPayload`: the C string in the packet, split at ',', each segment parsed. */
  method ExtractPayload<V>(packet: seq<char>, parse: seq<char> -> V) returns (output: seq<V>)
    requires NullTerminator in packet
    ensures |output| == |Segments(packet)| >= 1
    ensures forall k | 0 <= k < |output| :: output[k] == parse(Segments(packet)[k])
    ensures output == Decode(packet, parse)
  {
    var s := UntilNul(packet);
    var strs := Split(s, SplitDelimiters);
    output := [];
    for i := 0 to |strs|
      invariant |output| == i
      invariant forall k | 0 <= k < i :: output[k] == parse(strs[k])
    {
      output := output + [parse(strs[i])];
    }
  }

  // ---------------------------------------------------------------------------
  // Shape of an encoded packet

  /** Every value costs its text plus exactly one separator or terminator byte. */
  lemma {:induction false} EncodeLength(tokens: seq<seq<char>>)
    ensures |Encode(tokens)| == TotalLength(tokens) + |tokens|
  {
    if tokens != [] {
      JoinLength(tokens, Separator);
    }
  }

  /**
   * A packet of n >= 1 tokens holds n - 1 separators and one NUL, and that
   * NUL is its last byte.
   */
  lemma EncodeDelimiters(tokens: seq<seq<char>>)
    requires |tokens| >= 1 && AllTokens(tokens)
    ensures var packet := Encode(tokens);
      && |packet| >= 1
      && CountOf(packet, {Separator}) == |tokens| - 1
      && CountOf(packet, {NullTerminator}) == 1
      && packet[|packet| - 1] == NullTerminator
      && NullTerminator !in packet[..|packet| - 1]
  {
    var text := Join(tokens, Separator);
    JoinCount(tokens, Separator, {Separator});
    JoinCount(tokens, Separator, {NullTerminator});
    CountOfAppend(text, [NullTerminator], {Separator});
    CountOfAppend(text, [NullTerminator], {NullTerminator});
    CountOfZero(text, {NullTerminator});
    assert (text + [NullTerminator])[..|text|] == text;
  }

  /**
   * Reading the C string out of an encoded packet drops exactly its final
   * byte, the terminator.
   */
  lemma CutAtTerminator(tokens: seq<seq<char>>)
    requires |tokens| >= 1 && AllTokens(tokens)
    ensures NullTerminator in Encode(tokens)
    ensures UntilNul(Encode(tokens)) == Encode(tokens)[..|Encode(tokens)| - 1]
  {
    var text := Join(tokens, Separator);
    EncodeDelimiters(tokens);
    assert Encode(tokens) == text + [NullTerminator] + [];
    UntilNulOfTerminated(text, []);
    assert (text + [NullTerminator])[..|text|] == text;
  }

  // ---------------------------------------------------------------------------
  // Decoding

  /** Nothing after the first NUL of a packet changes what is decoded from it. */
  lemma DecodeIgnoresTrailing<V>(packet: seq<char>, junk: seq<char>, parse: seq<char> -> V)
    requires NullTerminator in packet
    ensures NullTerminator in packet + junk
    ensures Decode(packet + junk, parse) == Decode(packet, parse)
  {
    UntilNulIgnoresSuffix(packet, junk);
  }

  /**
   * A decoder returns one value more than there are separators in the C
   * string, so always at least one: reading element 0 never fails.
   */
  lemma {:induction false} DecodeCount<V>(packet: seq<char>, parse: seq<char> -> V)
    requires NullTerminator in packet
    ensures |Decode(packet, parse)| == CountOf(UntilNul(packet), SplitDelimiters) + 1
  {
    SplitCount(UntilNul(packet), SplitDelimiters);
  }

  /**
   * Under the three-character reading of the delimiter literal the segments
   * are the same whenever the C string holds no space (it never holds a NUL).
   */
  lemma {:induction false} SegmentsUnderLiteralDelimiters(packet: seq<char>)
    requires NullTerminator in packet
    requires ' ' !in UntilNul(packet)
    ensures Split(UntilNul(packet), LiteralDelimiters) == Segments(packet)
  {
    var s := UntilNul(packet);
    forall k | 0 <= k < |s| ensures s[k] in LiteralDelimiters <==> s[k] in SplitDelimiters {
      assert s[k] in s;
    }
    SplitSameDelimiters(s, LiteralDelimiters, SplitDelimiters);
  }

  /** Joining the segments back with ',' gives the C string again: no byte is lost. */
  lemma {:induction false} SegmentsRejoin(packet: seq<char>)
    requires NullTerminator in packet
    ensures Join(Segments(packet), Separator) == UntilNul(packet)
  {
    JoinSplit(UntilNul(packet), Separator);
  }

  // ---------------------------------------------------------------------------
  // Round trip

  /** The segments of an encoded packet are exactly the tokens, in order. */
  lemma SegmentsOfEncode(tokens: seq<seq<char>>)
    requires |tokens| >= 1 && AllTokens(tokens)
    ensures NullTerminator in Encode(tokens)
    ensures Segments(Encode(tokens)) == tokens
  {
    CutAtTerminator(tokens);
    var text := Join(tokens, Separator);
    assert (text + [NullTerminator])[..|text|] == text;
    forall k | 0 <= k < |tokens| ensures NoneOf(tokens[k], SplitDelimiters) {
      assert IsToken(tokens[k]);
    }
    SplitJoin(tokens, Separator, SplitDelimiters);
  }

  /** Decoding an encoded payload parses back each value's own text, in order. */
  lemma DecodeEncode<V>(payload: seq<V>, render: V -> seq<char>, parse: seq<char> -> V)
    requires |payload| >= 1
    requires forall k | 0 <= k < |payload| :: IsToken(render(payload[k]))
    ensures NullTerminator in Encode(Tokens(payload, render))
    ensures var values := Decode(Encode(Tokens(payload, render)), parse);
      |values| == |payload| &&
      forall k | 0 <= k < |payload| :: values[k] == parse(render(payload[k]))
  {
    SegmentsOfEncode(Tokens(payload, render));
  }

  /** When parsing undoes rendering, decoding undoes encoding. */
  lemma DecodeEncodeIdentity<V>(payload: seq<V>, render: V -> seq<char>, parse: seq<char> -> V)
    requires |payload| >= 1
    requires forall k | 0 <= k < |payload| :: IsToken(render(payload[k]))
    requires forall k | 0 <= k < |payload| :: parse(render(payload[k])) == payload[k]
    ensures NullTerminator in Encode(Tokens(payload, render))
    ensures Decode(Encode(Tokens(payload, render)), parse) == payload
  {
    DecodeEncode(payload, render, parse);
  }

  /** Distinct token lists give distinct packets. */
  lemma EncodeInjective(a: seq<seq<char>>, b: seq<seq<char>>)
    requires AllTokens(a) && AllTokens(b)
    requires Encode(a) == Encode(b)
    ensures a == b
  {
    if a != [] && b != [] {
      SegmentsOfEncode(a);
      SegmentsOfEncode(b);
    }
  }

  // ---------------------------------------------------------------------------
  // Malformed segments

  /**
   * `std::atof` gives 0 for a text that does not start, after white space,
   * with a sign, a digit, a point, or the first letter of "inf" or "nan".
   * `CannotStartNumber` is that condition for the first character.
   */
  const NumberStart: set<char> :=
    {' ', '\t', '\n', '\r', '\U{B}', '\U{C}', '+', '-', '.',
     '0', '1', '2', '3', '4', '5', '6', '7', '8', '9', 'i', 'I', 'n', 'N'}

  predicate CannotStartNumber(t: seq<char>)
  {
    t == [] || t[0] !in NumberStart
  }

  /** The packet "3.5,oops" followed by its terminator has the two segments "3.5" and "oops". */
  lemma SegmentsOfMalformedPacket()
    ensures NullTerminator in "3.5,oops\0"
    ensures Segments("3.5,oops\0") == ["3.5", "oops"]
  {
    var number, word := "3.5", "oops";
    var text := number + [Separator] + word;
    assert text == "3.5,oops";
    assert text + [NullTerminator] + [] == "3.5,oops\0";
    assert NullTerminator !in text;
    UntilNulOfTerminated(text, []);
    SplitField(number, Separator, word, SplitDelimiters);
    SplitWhole(word, SplitDelimiters);
  }

  /**
   * With a parser that gives `zero` for every text that cannot start a
   * number, the packet "3.5,oops" decodes to the parse of "3.5" and `zero`:
   * the bad segment degrades instead of failing.
   */
  lemma MalformedSegmentReadsAsZero<V>(parse: seq<char> -> V, zero: V)
    requires forall t :: CannotStartNumber(t) ==> parse(t) == zero
    ensures NullTerminator in "3.5,oops\0"
    ensures Decode("3.5,oops\0", parse) == [parse("3.5"), zero]
  {
    SegmentsOfMalformedPacket();
    var segments := Segments("3.5,oops\0");
    assert segments[1] == "oops" && "oops"[0] == 'o';
    assert CannotStartNumber(segments[1]);
    var values := Decode("3.5,oops\0", parse);
    assert |values| == 2;
    assert values[0] == parse("3.5");
    assert values[1] == zero;
  }
}
