/**
 * The `Delimiter` strategy of strsplit/src/lib.rs: given a haystack, report
 * the byte span `(start, end)` of the first occurrence of the delimiter, or
 * None. Two strategies exist, a `char` and a `&str` literal; both search the
 * haystack with `str::find`, modelled here as a first-occurrence byte search.
 */
module Delimiters {
  import opened Wrappers
  import opened Utf8

  /** The pattern `p` occurs in `h` starting at byte offset `i`. */
  predicate OccursAt(h: seq<Byte>, p: seq<Byte>, i: int) {
    0 <= i && i + |p| <= |h| && h[i..i + |p|] == p
  }

  /** No occurrence of `p` in `h` starts at an offset in [lo, hi). */
  predicate AbsentIn(h: seq<Byte>, p: seq<Byte>, lo: int, hi: int) {
    forall j :: lo <= j < hi ==> !OccursAt(h, p, j)
  }

  /** Where the first byte of `p` does not appear, no occurrence of `p` can start. */
  lemma AbsentWithoutLeadByte(h: seq<Byte>, p: seq<Byte>, lo: int, hi: int)
    requires |p| > 0
    requires forall j :: lo <= j < hi && 0 <= j < |h| ==> h[j] != p[0]
    ensures AbsentIn(h, p, lo, hi)
  {
    forall j | lo <= j < hi
      ensures !OccursAt(h, p, j)
    {
      if 0 <= j && j + |p| <= |h| {
        assert h[j..j + |p|][0] == h[j];
      }
    }
  }

  /** First occurrence of `p` in `h` at offset `i` or later. */
  function FindFrom(h: seq<Byte>, p: seq<Byte>, i: nat): (r: Option<nat>)
    decreases |h| + 1 - i
    ensures r.Some? ==> i <= r.value && OccursAt(h, p, r.value) && AbsentIn(h, p, i, r.value)
    ensures r.None? ==> AbsentIn(h, p, i, |h| + 1)
  {
    if i + |p| > |h| then None
    else if h[i..i + |p|] == p then Some(i)
    else FindFrom(h, p, i + 1)
  }

  /** `str::find`: the lowest byte offset at which `p` occurs in `h`. */
  function Find(h: seq<Byte>, p: seq<Byte>): (r: Option<nat>)
    ensures r.Some? ==> OccursAt(h, p, r.value) && AbsentIn(h, p, 0, r.value)
    ensures r.None? ==> AbsentIn(h, p, 0, |h| + 1)
  {
    FindFrom(h, p, 0)
  }

  /** Conversely, an occurrence with none before it is the one `Find` reports. */
  lemma FindIsFirst(h: seq<Byte>, p: seq<Byte>, i: nat)
    requires OccursAt(h, p, i) && AbsentIn(h, p, 0, i)
    ensures Find(h, p) == Some(i)
  {
  }

  /** The two `Delimiter` implementations: a `char` and a `&str` literal. */
  datatype Delimiter =
    | Char(c: CodePoint)
    | Literal(text: seq<Byte>)

  /** The bytes a delimiter matches: a char's UTF-8 encoding, or the literal itself. */
  function Pattern(d: Delimiter): (p: seq<Byte>)
    ensures d.Char? ==> 1 <= |p| <= 4
  {
    match d
    case Char(c) => Encode(c)
    case Literal(text) => text
  }

  /** The width `find_next` adds to the match start: `len_utf8` for a char, `len` for a literal. */
  function Width(d: Delimiter): (n: nat)
    ensures n == |Pattern(d)|
  {
    match d
    case Char(c) => EncodedLength(c)
    case Literal(text) => |text|
  }

  /** A delimiter whose every match consumes at least one byte; every char is one. */
  predicate Consumes(d: Delimiter) {
    |Pattern(d)| > 0
  }

  /**
   * `Delimiter::find_next`: the span of the first occurrence of the
   * delimiter in `h`. The span covers exactly the delimiter's bytes and no
   * earlier occurrence exists; None exactly when there is no occurrence.
   */
  function FindNext(d: Delimiter, h: seq<Byte>): (r: Option<(nat, nat)>)
    ensures r.Some? ==>
              && r.value.0 <= r.value.1 <= |h|
              && r.value.1 - r.value.0 == |Pattern(d)|
              && h[r.value.0..r.value.1] == Pattern(d)
              && AbsentIn(h, Pattern(d), 0, r.value.0)
    ensures r.None? <==> AbsentIn(h, Pattern(d), 0, |h| + 1)
  {
    match Find(h, Pattern(d))
    case None => None
    case Some(i) => Some((i, i + Width(d)))
  }

  /** A char delimiter's match is one to four bytes wide, per the table of RFC 3629. */
  lemma CharSpanWidth(c: CodePoint, h: seq<Byte>)
    requires FindNext(Char(c), h).Some?
    ensures 1 <= FindNext(Char(c), h).value.1 - FindNext(Char(c), h).value.0 <= 4
    ensures FindNext(Char(c), h).value.1 - FindNext(Char(c), h).value.0 == EncodedLength(c)
  {
  }

  /** An empty literal matches at offset 0 with an empty span: it consumes nothing. */
  lemma EmptyLiteralMatchesAtStart(h: seq<Byte>)
    ensures FindNext(Literal([]), h) == Some((0, 0))
  {
    assert OccursAt(h, [], 0);
  }
}
