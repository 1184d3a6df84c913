/**
 * The unit tests of strsplit/src/lib.rs, as clients of the model: each
 * drives the iterator the way its test does, and its postcondition is the
 * test's expected outcome. Texts are written as their UTF-8 bytes.
 */
module Examples {
  import opened Wrappers
  import opened Utf8
  import opened Delimiters
  import opened Splitting

  const Space: seq<Byte> := [0x20]
  /** "hello" and "world" */
  const Hello: seq<Byte> := [0x68, 0x65, 0x6C, 0x6C, 0x6F]
  const World: seq<Byte> := [0x77, 0x6F, 0x72, 0x6C, 0x64]

  /** "hello world" */
  const HelloWorld: seq<Byte> := [0x68, 0x65, 0x6C, 0x6C, 0x6F, 0x20, 0x77, 0x6F, 0x72, 0x6C, 0x64]

  /** The first step of a split of "hello world" on " " stops at the space. */
  lemma HelloWorldFirstStep()
    ensures HelloWorld[0..5] == Hello
    ensures Advance(HelloWorld, Literal(Space), Some(0)) == (Some(Span(0, 5)), Some(6))
  {
    var h, d := HelloWorld, Literal(Space);
    assert Pattern(d) == Space;
    AbsentWithoutLeadByte(h, Space, 0, 5);
    assert OccursAt(h, Space, 5);
    AdvanceStopsAt(h, d, 0, 5);
  }

  /** The second step runs to the end. */
  lemma HelloWorldSecondStep()
    ensures HelloWorld[6..11] == World
    ensures Advance(HelloWorld, Literal(Space), Some(6)) == (Some(Span(6, 11)), None)
  {
    var h, d := HelloWorld, Literal(Space);
    assert Pattern(d) == Space;
    AbsentWithoutLeadByte(h, Space, 6, |h| + 1);
    AdvanceRunsOut(h, d, 6);
  }

  /** `test_str_split`: "hello world" on " " yields "hello", then "world", then nothing. */
  method SplitHelloWorld() returns (first: Option<seq<Byte>>, second: Option<seq<Byte>>, third: Option<seq<Byte>>)
    ensures first == Some(Hello)
    ensures second == Some(World)
    ensures third == None
  {
    HelloWorldFirstStep();
    HelloWorldSecondStep();
    var it := new StrSplit(HelloWorld, Literal(Space));
    first := it.Next();
    second := it.Next();
    third := it.Next();
  }

  /** "1 2 3 4 5" and where its digits lie. */
  const Digits: seq<Byte> := [0x31, 0x20, 0x32, 0x20, 0x33, 0x20, 0x34, 0x20, 0x35]
  const DigitSpans: seq<Span> := [Span(0, 1), Span(2, 3), Span(4, 5), Span(6, 7), Span(8, 9)]

  lemma DigitsSplit()
    ensures Split(Digits, Literal(Space)) == DigitSpans
  {
    var h, spans := Digits, DigitSpans;
    AbsentWithoutLeadByte(h, Space, 0, 1);
    AbsentWithoutLeadByte(h, Space, 2, 3);
    AbsentWithoutLeadByte(h, Space, 4, 5);
    AbsentWithoutLeadByte(h, Space, 6, 7);
    AbsentWithoutLeadByte(h, Space, 8, 9);
    TilesLast(h, Space, 8);
    TilesCons(h, Space, Span(6, 7), spans[4..], None);
    TilesCons(h, Space, Span(4, 5), spans[3..], None);
    TilesCons(h, Space, Span(2, 3), spans[2..], None);
    TilesCons(h, Space, Span(0, 1), spans[1..], None);
    SplitIsUnique(h, Literal(Space), spans);
  }

  lemma DigitsSegments()
    ensures SpansInRange(Digits, DigitSpans)
    ensures Segments(Digits, DigitSpans) == [[0x31], [0x32], [0x33], [0x34], [0x35]]
  {
    var h, spans := Digits, DigitSpans;
    assert h[0..1] == [0x31] && h[2..3] == [0x32] && h[4..5] == [0x33];
    assert h[6..7] == [0x34] && h[8..9] == [0x35];
    SegmentsCons(h, Span(8, 9), []);
    assert spans[4..] == [Span(8, 9)] + [];
    SegmentsCons(h, Span(6, 7), spans[4..]);
    assert spans[3..] == [Span(6, 7)] + spans[4..];
    SegmentsCons(h, Span(4, 5), spans[3..]);
    assert spans[2..] == [Span(4, 5)] + spans[3..];
    SegmentsCons(h, Span(2, 3), spans[2..]);
    assert spans[1..] == [Span(2, 3)] + spans[2..];
    SegmentsCons(h, Span(0, 1), spans[1..]);
    assert spans == [Span(0, 1)] + spans[1..];
  }

  /** `test_longer_string`: "1 2 3 4 5" on " " collects to "1", "2", "3", "4", "5". */
  method CollectDigits() returns (items: seq<seq<Byte>>)
    ensures items == [[0x31], [0x32], [0x33], [0x34], [0x35]]
  {
    DigitsSplit();
    DigitsSegments();
    items := CollectSplit(Digits, Literal(Space));
  }

  /** "1 2 3 4 ": the delimiter at the very end leaves one more, empty, segment. */
  const Trailing: seq<Byte> := [0x31, 0x20, 0x32, 0x20, 0x33, 0x20, 0x34, 0x20]
  const TrailingSpans: seq<Span> := [Span(0, 1), Span(2, 3), Span(4, 5), Span(6, 7), Span(8, 8)]

  lemma TrailingSplit()
    ensures Split(Trailing, Literal(Space)) == TrailingSpans
  {
    var h, spans := Trailing, TrailingSpans;
    AbsentWithoutLeadByte(h, Space, 0, 1);
    AbsentWithoutLeadByte(h, Space, 2, 3);
    AbsentWithoutLeadByte(h, Space, 4, 5);
    AbsentWithoutLeadByte(h, Space, 6, 7);
    TilesLast(h, Space, 8);
    TilesCons(h, Space, Span(6, 7), spans[4..], None);
    TilesCons(h, Space, Span(4, 5), spans[3..], None);
    TilesCons(h, Space, Span(2, 3), spans[2..], None);
    TilesCons(h, Space, Span(0, 1), spans[1..], None);
    SplitIsUnique(h, Literal(Space), spans);
  }

  lemma TrailingSegments()
    ensures SpansInRange(Trailing, TrailingSpans)
    ensures Segments(Trailing, TrailingSpans) == [[0x31], [0x32], [0x33], [0x34], []]
  {
    var h, spans := Trailing, TrailingSpans;
    assert h[0..1] == [0x31] && h[2..3] == [0x32] && h[4..5] == [0x33];
    assert h[6..7] == [0x34] && h[8..8] == [];
    SegmentsCons(h, Span(8, 8), []);
    assert spans[4..] == [Span(8, 8)] + [];
    SegmentsCons(h, Span(6, 7), spans[4..]);
    assert spans[3..] == [Span(6, 7)] + spans[4..];
    SegmentsCons(h, Span(4, 5), spans[3..]);
    assert spans[2..] == [Span(4, 5)] + spans[3..];
    SegmentsCons(h, Span(2, 3), spans[2..]);
    assert spans[1..] == [Span(2, 3)] + spans[2..];
    SegmentsCons(h, Span(0, 1), spans[1..]);
    assert spans == [Span(0, 1)] + spans[1..];
  }

  /** `test_string_with_tail`: "1 2 3 4 " on " " collects to "1", "2", "3", "4", "". */
  method CollectTrailing() returns (items: seq<seq<Byte>>)
    ensures items == [[0x31], [0x32], [0x33], [0x34], []]
  {
    TrailingSplit();
    TrailingSegments();
    items := CollectSplit(Trailing, Literal(Space));
  }

  /** `test_empty`: the empty haystack starts exhausted and collects to nothing. */
  method CollectEmpty() returns (first: Option<seq<Byte>>, items: seq<seq<Byte>>)
    ensures first == None
    ensures items == []
  {
    var it := new StrSplit([], Literal(Space));
    first := it.Next();
    items := CollectSplit([], Literal(Space));
  }

  /** `test_single_delimiter`: " " on " " collects to "", "". */
  method CollectSingleDelimiter() returns (items: seq<seq<Byte>>)
    ensures items == [[], []]
  {
    var h, spans := Space, [Span(0, 0), Span(1, 1)];
    TilesLast(h, Space, 1);
    TilesCons(h, Space, Span(0, 0), spans[1..], None);
    SplitIsUnique(h, Literal(Space), spans);
    SegmentsCons(h, Span(1, 1), []);
    SegmentsCons(h, Span(0, 0), [Span(1, 1)]);
    assert spans == [Span(0, 0)] + [Span(1, 1)];
    items := CollectSplit(h, Literal(Space));
  }

  /** `test_until_char`: the text of "hello world" up to ' ' is "hello". */
  method UntilSpace() returns (r: Option<seq<Byte>>)
    ensures r == Some(Hello)
  {
    var h := HelloWorld;
    assert Encode(0x20) == Space;
    AbsentWithoutLeadByte(h, Space, 0, 5);
    assert OccursAt(h, Space, 5);
    r := UntilChar(h, 0x20);
    assert h[..5] == Hello;
  }

  /** 'ß' (U+00DF) takes two bytes in UTF-8. */
  const SharpS: seq<Byte> := [0xC3, 0x9F]

  lemma SharpSEncoding()
    ensures EncodedLength(0xDF) == 2
    ensures Encode(0xDF) == SharpS
  {
  }

  /** In "helloßworld" the 'ß' starts at byte 5 and ends at byte 7. */
  lemma FindSharpS()
    ensures FindNext(Char(0xDF), Hello + SharpS + World) == Some((5, 7))
  {
    var h := Hello + SharpS + World;
    assert h == [0x68, 0x65, 0x6C, 0x6C, 0x6F, 0xC3, 0x9F, 0x77, 0x6F, 0x72, 0x6C, 0x64];
    SharpSEncoding();
    AbsentWithoutLeadByte(h, SharpS, 0, 5);
    assert OccursAt(h, SharpS, 5);
  }

  /** `test_until_ut8_char`: the text of "helloßworld" up to 'ß' is "hello". */
  method UntilSharpS() returns (r: Option<seq<Byte>>)
    ensures r == Some(Hello)
  {
    var h := Hello + SharpS + World;
    assert h == [0x68, 0x65, 0x6C, 0x6C, 0x6F, 0xC3, 0x9F, 0x77, 0x6F, 0x72, 0x6C, 0x64];
    SharpSEncoding();
    AbsentWithoutLeadByte(h, SharpS, 0, 5);
    assert OccursAt(h, SharpS, 5);
    r := UntilChar(h, 0xDF);
    assert h[..5] == Hello;
  }
}
