/**
 * `StrSplit`, the lazy splitting iterator of strsplit/src/lib.rs, and the
 * one-shot `until_char` built on it.
 *
 * Every view the iterator hands out borrows from the haystack it was built
 * over; here a view is a span of byte offsets into that haystack, and the
 * remainder is the offset at which the unconsumed tail starts.
 */
module Splitting {
  import opened Wrappers
  import opened Utf8
  import opened Delimiters

  /** The half-open byte range [lo, hi) of the haystack: a borrowed `&str`. */
  datatype Span = Span(lo: nat, hi: nat)

  /** The remainder is absent (exhausted) or a tail of `h` starting at an offset within it. */
  predicate InRange(h: seq<Byte>, rem: Option<nat>) {
    rem.Some? ==> rem.value <= |h|
  }

  /** Every span lies within `h`. */
  predicate SpansInRange(h: seq<Byte>, spans: seq<Span>) {
    spans == [] || (spans[0].lo <= spans[0].hi <= |h| && SpansInRange(h, spans[1..]))
  }

  /** The bytes each span views. */
  function Segments(h: seq<Byte>, spans: seq<Span>): (segs: seq<seq<Byte>>)
    requires SpansInRange(h, spans)
    ensures |segs| == |spans|
  {
    if spans == [] then [] else [h[spans[0].lo..spans[0].hi]] + Segments(h, spans[1..])
  }

  /** Span `k` of spans in range lies within `h`. */
  lemma {:induction false} SpanAt(h: seq<Byte>, spans: seq<Span>, k: nat)
    requires SpansInRange(h, spans) && k < |spans|
    ensures spans[k].lo <= spans[k].hi <= |h|
    decreases k
  {
    if k > 0 {
      SpanAt(h, spans[1..], k - 1);
    }
  }

  /** Appending a span within `h` keeps all spans within `h`. */
  lemma {:induction false} SpansInRangeAppend(h: seq<Byte>, spans: seq<Span>, sp: Span)
    requires SpansInRange(h, spans) && sp.lo <= sp.hi <= |h|
    ensures SpansInRange(h, spans + [sp])
    decreases |spans|
  {
    if spans != [] {
      SpansInRangeAppend(h, spans[1..], sp);
      assert (spans + [sp])[1..] == spans[1..] + [sp];
    }
  }

  /** Segment `k` is the bytes span `k` views. */
  lemma {:induction false} SegmentAt(h: seq<Byte>, spans: seq<Span>, k: nat)
    requires SpansInRange(h, spans) && k < |spans|
    ensures spans[k].lo <= spans[k].hi <= |h|
    ensures Segments(h, spans)[k] == h[spans[k].lo..spans[k].hi]
    decreases k
  {
    if k > 0 {
      SegmentAt(h, spans[1..], k - 1);
    }
  }

  /** One more span adds its bytes as one more segment. */
  lemma SegmentsAppend(h: seq<Byte>, spans: seq<Span>, sp: Span)
    requires SpansInRange(h, spans) && sp.lo <= sp.hi <= |h|
    ensures SpansInRange(h, spans + [sp])
    ensures Segments(h, spans + [sp]) == Segments(h, spans) + [h[sp.lo..sp.hi]]
  {
    var all := spans + [sp];
    SpansInRangeAppend(h, spans, sp);
    forall k | 0 <= k < |all|
      ensures Segments(h, all)[k] == (Segments(h, spans) + [h[sp.lo..sp.hi]])[k]
    {
      SegmentAt(h, all, k);
      if k < |spans| {
        SegmentAt(h, spans, k);
      }
    }
  }

  /** Putting a span in front adds its bytes as the first segment. */
  lemma SegmentsCons(h: seq<Byte>, sp: Span, rest: seq<Span>)
    requires sp.lo <= sp.hi <= |h| && SpansInRange(h, rest)
    ensures SpansInRange(h, [sp] + rest)
    ensures Segments(h, [sp] + rest) == [h[sp.lo..sp.hi]] + Segments(h, rest)
  {
    assert ([sp] + rest)[1..] == rest;
  }

  /** What an iterator has yielded, followed by its remainder while it is live. */
  function Pieces(h: seq<Byte>, spans: seq<Span>, rem: Option<nat>): seq<seq<Byte>>
    requires SpansInRange(h, spans) && InRange(h, rem)
  {
    Segments(h, spans) + match rem case None => [] case Some(t) => [h[t..]]
  }

  /** The first piece is the first segment. */
  lemma PiecesFront(h: seq<Byte>, spans: seq<Span>, rem: Option<nat>)
    requires spans != [] && SpansInRange(h, spans) && InRange(h, rem)
    ensures SpansInRange(h, spans[1..])
    ensures Pieces(h, spans, rem) == [h[spans[0].lo..spans[0].hi]] + Pieces(h, spans[1..], rem)
  {
    var first := [h[spans[0].lo..spans[0].hi]];
    var later := Segments(h, spans[1..]);
    var live: seq<seq<Byte>> := match rem case None => [] case Some(t) => [h[t..]];
    assert Segments(h, spans) == first + later;
    assert first + later + live == first + (later + live);
  }

  /** The segments with `sep` between each two neighbours. */
  function Join(segs: seq<seq<Byte>>, sep: seq<Byte>): seq<Byte> {
    if |segs| == 0 then []
    else if |segs| == 1 then segs[0]
    else segs[0] + sep + Join(segs[1..], sep)
  }

  /** The bytes a yielded span views: the `&str` the iterator hands out. */
  function View(h: seq<Byte>, sp: Option<Span>): (item: Option<seq<Byte>>)
    requires sp.Some? ==> sp.value.lo <= sp.value.hi <= |h|
    ensures item.Some? <==> sp.Some?
    ensures item.Some? ==> |item.value| == sp.value.hi - sp.value.lo
  {
    match sp
    case None => None
    case Some(Span(lo, hi)) => Some(h[lo..hi])
  }

  /** The span, if any, as a list of at most one. */
  function Listed(sp: Option<Span>): (spans: seq<Span>)
    ensures |spans| <= 1
  {
    match sp
    case None => []
    case Some(x) => [x]
  }

  /** `StrSplit::new`: the initial remainder; absent for an empty haystack, which yields nothing. */
  function Start(h: seq<Byte>): (rem: Option<nat>)
    ensures InRange(h, rem)
    ensures rem.None? <==> |h| == 0
    ensures rem.Some? ==> h[rem.value..] == h
  {
    if |h| == 0 then None else Some(0)
  }

  /**
   * One step of `Iterator::next` on the remainder `rem` of haystack `h`:
   * the span yielded and the new remainder. An absent remainder stays absent
   * and yields nothing. Otherwise the yielded span starts at the remainder
   * and stops at the first occurrence of the delimiter, which the new
   * remainder skips; with no occurrence it runs to the end of the haystack
   * and the remainder becomes absent.
   */
  function Advance(h: seq<Byte>, d: Delimiter, rem: Option<nat>): (r: (Option<Span>, Option<nat>))
    requires InRange(h, rem)
    ensures InRange(h, r.1)
    ensures rem.None? ==> r == (None, None)
    ensures rem.Some? ==>
              && r.0.Some?
              && r.0.value.lo == rem.value <= r.0.value.hi <= |h|
              && AbsentIn(h, Pattern(d), rem.value, r.0.value.hi)
    ensures rem.Some? && r.1.None? ==>
              r.0.value.hi == |h| && AbsentIn(h, Pattern(d), rem.value, |h| + 1)
    ensures r.1.Some? ==>
              rem.Some? && OccursAt(h, Pattern(d), r.0.value.hi) && r.1.value == r.0.value.hi + |Pattern(d)|
  {
    match rem
    case None => (None, None)
    case Some(s) =>
      var tail := h[s..];
      ShiftedOccurrences(h, Pattern(d), s);
      match FindNext(d, tail)
      case Some((start, end)) => (Some(Span(s, s + start)), Some(s + end))
      case None => (Some(Span(s, |h|)), None)
  }

  /** An occurrence in the tail `h[s..]` is an occurrence in `h`, `s` bytes further on. */
  lemma ShiftedOccurrences(h: seq<Byte>, p: seq<Byte>, s: nat)
    requires s <= |h|
    ensures forall j :: 0 <= j ==> (OccursAt(h[s..], p, j) <==> OccursAt(h, p, s + j))
    ensures forall lo, hi :: 0 <= lo ==> (AbsentIn(h[s..], p, lo, hi) <==> AbsentIn(h, p, s + lo, s + hi))
  {
    forall j | 0 <= j
      ensures OccursAt(h[s..], p, j) <==> OccursAt(h, p, s + j)
    {
      if 0 <= j && j + |p| <= |h| - s {
        assert h[s..][j..j + |p|] == h[s + j..s + j + |p|];
      }
    }
    forall lo, hi | 0 <= lo
      ensures AbsentIn(h[s..], p, lo, hi) <==> AbsentIn(h, p, s + lo, s + hi)
    {
      if AbsentIn(h[s..], p, lo, hi) {
        forall j | s + lo <= j < s + hi
          ensures !OccursAt(h, p, j)
        {
          assert !OccursAt(h[s..], p, j - s);
        }
      }
    }
  }

  /**
   * `spans`, yielded one after another from a remainder starting at `s`,
   * leave the remainder `rem`: each span starts where the previous match
   * ended, holds no occurrence of the pattern `p`, and is followed either by
   * an occurrence of `p` or, for the last span of an exhausted iterator, by
   * the end of the haystack.
   */
  ghost predicate Tiles(h: seq<Byte>, p: seq<Byte>, s: nat, spans: seq<Span>, rem: Option<nat>)
    decreases |spans|
  {
    if spans == [] then
      rem == Some(s) && s <= |h|
    else
      && spans[0].lo == s <= spans[0].hi <= |h|
      && AbsentIn(h, p, s, spans[0].hi)
      && ((|spans| == 1 && rem.None? && spans[0].hi == |h|)
          || (OccursAt(h, p, spans[0].hi) && Tiles(h, p, spans[0].hi + |p|, spans[1..], rem)))
  }

  /** A segment ended by a delimiter, in front of a tiling of what follows. */
  lemma TilesCons(h: seq<Byte>, p: seq<Byte>, sp: Span, rest: seq<Span>, rem: Option<nat>)
    requires sp.lo <= sp.hi <= |h| && AbsentIn(h, p, sp.lo, sp.hi) && OccursAt(h, p, sp.hi)
    requires Tiles(h, p, sp.hi + |p|, rest, rem)
    ensures Tiles(h, p, sp.lo, [sp] + rest, rem)
  {
    assert ([sp] + rest)[1..] == rest;
  }

  /** A last segment that runs to the end of the haystack. */
  lemma TilesLast(h: seq<Byte>, p: seq<Byte>, s: nat)
    requires s <= |h| && AbsentIn(h, p, s, |h|)
    ensures Tiles(h, p, s, [Span(s, |h|)], None)
  {
  }

  /** The spans yielded so far by an iterator over `h`, and its remainder, fit together. */
  ghost predicate Produced(h: seq<Byte>, p: seq<Byte>, spans: seq<Span>, rem: Option<nat>) {
    if |h| == 0 then spans == [] && rem.None? else Tiles(h, p, 0, spans, rem)
  }

  /** A single span from `t`, followed by a delimiter and a remainder or by the end of the haystack. */
  lemma TilesOne(h: seq<Byte>, p: seq<Byte>, t: nat, x: Span, r: Option<nat>)
    requires x.lo == t <= x.hi <= |h| && AbsentIn(h, p, t, x.hi) && InRange(h, r)
    requires r.None? ==> x.hi == |h|
    requires r.Some? ==> OccursAt(h, p, x.hi) && r.value == x.hi + |p|
    ensures Tiles(h, p, t, [x], r)
  {
    if r.Some? {
      TilesCons(h, p, x, [], r);
      assert [x] + [] == [x];
    } else {
      TilesLast(h, p, t);
    }
  }

  /** The span one step yields from a live remainder `t`, and the remainder it leaves. */
  lemma TilesStep(h: seq<Byte>, d: Delimiter, t: nat)
    requires t <= |h|
    ensures Tiles(h, Pattern(d), t, [Advance(h, d, Some(t)).0.value], Advance(h, d, Some(t)).1)
  {
    var (x, r) := Advance(h, d, Some(t));
    TilesOne(h, Pattern(d), t, x.value, r);
  }

  /** A tiling that leaves remainder `t`, followed by a tiling from `t`, is one tiling. */
  lemma {:induction false} TilesSnoc(h: seq<Byte>, p: seq<Byte>, s: nat, spans: seq<Span>, t: nat, x: Span, r: Option<nat>)
    requires Tiles(h, p, s, spans, Some(t))
    requires Tiles(h, p, t, [x], r)
    ensures Tiles(h, p, s, spans + [x], r)
    decreases |spans|
  {
    if spans == [] {
      assert spans + [x] == [x];
    } else {
      var rest := spans[1..];
      TilesSnoc(h, p, spans[0].hi + |p|, rest, t, x, r);
      TilesCons(h, p, spans[0], rest + [x], r);
      assert spans + [x] == [spans[0]] + (rest + [x]);
    }
  }

  /** One more step of the iterator extends a tiling by the span it yields. */
  lemma TilesExtend(h: seq<Byte>, d: Delimiter, s: nat, spans: seq<Span>, t: nat)
    requires Tiles(h, Pattern(d), s, spans, Some(t))
    ensures t <= |h|
    ensures Tiles(h, Pattern(d), s, spans + [Advance(h, d, Some(t)).0.value], Advance(h, d, Some(t)).1)
  {
    TilesPartition(h, Pattern(d), s, spans, Some(t));
    TilesStep(h, d, t);
    TilesSnoc(h, Pattern(d), s, spans, t, Advance(h, d, Some(t)).0.value, Advance(h, d, Some(t)).1);
  }

  /** A step of the iterator keeps what it has yielded and its remainder fitting together. */
  lemma ProducedStep(h: seq<Byte>, d: Delimiter, spans: seq<Span>, rem: Option<nat>)
    requires InRange(h, rem) && SpansInRange(h, spans)
    requires Produced(h, Pattern(d), spans, rem)
    ensures SpansInRange(h, spans + Listed(Advance(h, d, rem).0))
    ensures Produced(h, Pattern(d), spans + Listed(Advance(h, d, rem).0), Advance(h, d, rem).1)
  {
    if rem.Some? {
      TilesExtend(h, d, 0, spans, rem.value);
      SpansInRangeAppend(h, spans, Advance(h, d, rem).0.value);
    } else {
      assert spans + Listed(Advance(h, d, rem).0) == spans;
    }
  }

  /**
   * The partition law: the spans lie left to right, each starting exactly
   * one delimiter after the previous one ends, and none overlaps another or
   * a delimiter; the remainder starts one delimiter after the last span.
   */
  lemma {:induction false} TilesPartition(h: seq<Byte>, p: seq<Byte>, s: nat, spans: seq<Span>, rem: Option<nat>)
    requires Tiles(h, p, s, spans, rem)
    ensures SpansInRange(h, spans) && InRange(h, rem)
    ensures spans == [] ==> rem == Some(s)
    ensures spans != [] ==> spans[0].lo == s
    ensures forall k :: 0 <= k < |spans| - 1 ==>
              OccursAt(h, p, spans[k].hi) && spans[k + 1].lo == spans[k].hi + |p|
    ensures spans != [] && rem.None? ==> spans[|spans| - 1].hi == |h|
    ensures spans != [] && rem.Some? ==>
              OccursAt(h, p, spans[|spans| - 1].hi) && rem.value == spans[|spans| - 1].hi + |p|
    decreases |spans|
  {
    if spans != [] && !(|spans| == 1 && rem.None? && spans[0].hi == |h|) {
      TilesPartition(h, p, spans[0].hi + |p|, spans[1..], rem);
    }
  }

  /**
   * The reconstruction law: the yielded segments, followed by the remainder
   * while the iterator is live, joined by the delimiter they were split at,
   * give back the haystack from `s` on.
   */
  lemma {:induction false} TilesReconstruct(h: seq<Byte>, p: seq<Byte>, s: nat, spans: seq<Span>, rem: Option<nat>)
    requires Tiles(h, p, s, spans, rem)
    ensures SpansInRange(h, spans) && s <= |h| && InRange(h, rem)
    ensures Join(Pieces(h, spans, rem), p) == h[s..]
    decreases |spans|
  {
    TilesPartition(h, p, s, spans, rem);
    if spans == [] {
      assert Pieces(h, spans, rem) == [h[s..]];
    } else {
      var a := spans[0];
      if |spans| == 1 && rem.None? && a.hi == |h| {
        assert Pieces(h, spans, rem) == [h[s..|h|]];
      } else {
        TilesReconstruct(h, p, a.hi + |p|, spans[1..], rem);
        PiecesFront(h, spans, rem);
        ReconstructStep(h, p, a, Pieces(h, spans[1..], rem));
      }
    }
  }

  /**
   * At every point of the iteration, the segments yielded so far and the
   * remainder, joined by the delimiter, rebuild the haystack.
   */
  lemma ProducedReconstructs(h: seq<Byte>, p: seq<Byte>, spans: seq<Span>, rem: Option<nat>)
    requires Produced(h, p, spans, rem)
    ensures SpansInRange(h, spans) && InRange(h, rem)
    ensures Join(Pieces(h, spans, rem), p) == h
  {
    if |h| > 0 {
      TilesReconstruct(h, p, 0, spans, rem);
    } else {
      assert Pieces(h, spans, rem) == [];
    }
  }

  /** Putting the first segment and its delimiter in front of the reconstructed rest. */
  lemma ReconstructStep(h: seq<Byte>, p: seq<Byte>, a: Span, later: seq<seq<Byte>>)
    requires a.lo <= a.hi && OccursAt(h, p, a.hi)
    requires later != [] && Join(later, p) == h[a.hi + |p|..]
    ensures Join([h[a.lo..a.hi]] + later, p) == h[a.lo..]
  {
    DelimiterBetween(h, p, a.lo, a.hi);
    JoinCons(h[a.lo..a.hi], later, p);
  }

  /** Joining a segment in front of others puts one separator between. */
  lemma JoinCons(first: seq<Byte>, later: seq<seq<Byte>>, sep: seq<Byte>)
    requires later != []
    ensures Join([first] + later, sep) == first + sep + Join(later, sep)
  {
    assert ([first] + later)[1..] == later;
  }

  /** A haystack cut around an occurrence of `p`: before, the occurrence, after. */
  lemma DelimiterBetween(h: seq<Byte>, p: seq<Byte>, s: nat, i: nat)
    requires s <= i && OccursAt(h, p, i)
    ensures h[s..] == h[s..i] + p + h[i + |p|..]
  {
    assert h[s..] == h[s..i] + h[i..i + |p|] + h[i + |p|..];
  }

  /** How far the remainder is from the end: shrinks with every step of a consuming delimiter. */
  function Measure(h: seq<Byte>, rem: Option<nat>): nat
    requires InRange(h, rem)
  {
    match rem
    case None => 0
    case Some(t) => |h| - t + 1
  }

  /**
   * The segments (as spans) an iterator with remainder `rem` still yields,
   * for a delimiter that consumes at least one byte per match.
   */
  function SplitFrom(h: seq<Byte>, d: Delimiter, rem: Option<nat>): (spans: seq<Span>)
    requires InRange(h, rem)
    requires Consumes(d)
    ensures spans == [] <==> rem.None?
    ensures SpansInRange(h, spans)
    decreases Measure(h, rem)
  {
    match rem
    case None => []
    case Some(t) =>
      var (sp, rest) := Advance(h, d, rem);
      [sp.value] + SplitFrom(h, d, rest)
  }

  /** What the iterator still yields tiles the rest of the haystack. */
  lemma {:induction false} SplitFromTiles(h: seq<Byte>, d: Delimiter, s: nat)
    requires Consumes(d) && s <= |h|
    ensures Tiles(h, Pattern(d), s, SplitFrom(h, d, Some(s)), None)
    decreases |h| - s
  {
    var (sp, rest) := Advance(h, d, Some(s));
    var tail := SplitFrom(h, d, rest);
    assert SplitFrom(h, d, Some(s)) == [sp.value] + tail;
    if rest.Some? {
      SplitFromTiles(h, d, rest.value);
      TilesCons(h, Pattern(d), sp.value, tail, None);
    } else {
      TilesLast(h, Pattern(d), s);
      assert [sp.value] + tail == [Span(s, |h|)];
    }
  }

  /** Every segment a fresh iterator over `h` yields: what collecting it gives. */
  function Split(h: seq<Byte>, d: Delimiter): (spans: seq<Span>)
    requires Consumes(d)
    ensures spans == [] <==> |h| == 0
    ensures SpansInRange(h, spans)
  {
    SplitFrom(h, d, Start(h))
  }

  /**
   * Splitting partitions the haystack: the segments, joined by the
   * delimiter, rebuild it exactly, and they lie left to right, one
   * delimiter apart, with no delimiter inside any of them.
   */
  lemma SplitReconstructs(h: seq<Byte>, d: Delimiter)
    requires Consumes(d)
    ensures Produced(h, Pattern(d), Split(h, d), None)
    ensures Join(Segments(h, Split(h, d)), Pattern(d)) == h
  {
    if |h| > 0 {
      SplitFromTiles(h, d, 0);
      TilesReconstruct(h, Pattern(d), 0, Split(h, d), None);
      assert Pieces(h, Split(h, d), None) == Segments(h, Split(h, d));
    }
  }

  /** A live remainder yields the span `Advance` computes, then everything the next remainder yields. */
  lemma SplitFromStep(h: seq<Byte>, d: Delimiter, s: nat, next: Option<nat>, tail: seq<Span>)
    requires Consumes(d) && s <= |h|
    requires Advance(h, d, Some(s)).1 == next && InRange(h, next)
    requires SplitFrom(h, d, next) == tail
    ensures SplitFrom(h, d, Some(s)) == [Advance(h, d, Some(s)).0.value] + tail
  {
  }

  /** The first span of a complete tiling is the span the iterator yields first. */
  lemma FirstSpanIsYielded(h: seq<Byte>, d: Delimiter, s: nat, spans: seq<Span>)
    requires Consumes(d)
    requires Tiles(h, Pattern(d), s, spans, None)
    ensures s <= |h| && spans != []
    ensures Advance(h, d, Some(s)).0 == Some(spans[0])
    ensures Advance(h, d, Some(s)).1 == if |spans| == 1 then None else Some(spans[0].hi + |Pattern(d)|)
    ensures |spans| > 1 ==> Tiles(h, Pattern(d), spans[0].hi + |Pattern(d)|, spans[1..], None)
  {
    var p := Pattern(d);
    var a := spans[0];
    var (sp, rest) := Advance(h, d, Some(s));
    if |spans| == 1 && a.hi == |h| {
      // a runs to the end with no delimiter in it, so the iterator finds none either
      assert AbsentIn(h, p, s, |h| + 1) by {
        assert !OccursAt(h, p, |h|);
      }
    } else {
      // a ends at the first delimiter after s, which is where the iterator stops too
      assert OccursAt(h, p, a.hi);
      assert sp.value.hi == a.hi;
    }
  }

  /**
   * `Advance` stops at the first delimiter: from `s`, with the first
   * occurrence at `i`, it yields [s, i) and resumes after the delimiter.
   */
  lemma AdvanceStopsAt(h: seq<Byte>, d: Delimiter, s: nat, i: nat)
    requires s <= i && OccursAt(h, Pattern(d), i) && AbsentIn(h, Pattern(d), s, i)
    ensures Advance(h, d, Some(s)) == (Some(Span(s, i)), Some(i + |Pattern(d)|))
  {
  }

  /** With no delimiter from `s` on, `Advance` yields the rest of the haystack and exhausts. */
  lemma AdvanceRunsOut(h: seq<Byte>, d: Delimiter, s: nat)
    requires s <= |h| && AbsentIn(h, Pattern(d), s, |h| + 1)
    ensures Advance(h, d, Some(s)) == (Some(Span(s, |h|)), None)
  {
  }

  /** The step `Advance` takes when the delimiter occurs in the remainder from `s`. */
  lemma AdvanceFound(h: seq<Byte>, d: Delimiter, s: nat, start: nat, end: nat)
    requires s <= |h| && FindNext(d, h[s..]) == Some((start, end))
    ensures s + start <= |h| && h[s..][..start] == h[s..s + start]
    ensures Advance(h, d, Some(s)) == (Some(Span(s, s + start)), Some(s + end))
  {
  }

  /** The step `Advance` takes when the delimiter does not occur in the remainder from `s`. */
  lemma AdvanceNotFound(h: seq<Byte>, d: Delimiter, s: nat)
    requires s <= |h| && FindNext(d, h[s..]).None?
    ensures h[s..] == h[s..|h|]
    ensures Advance(h, d, Some(s)) == (Some(Span(s, |h|)), None)
  {
  }

  /**
   * With a delimiter that consumes at least one byte, every step either
   * exhausts the iterator or moves the remainder strictly forward, so the
   * iteration ends.
   */
  lemma AdvanceShrinks(h: seq<Byte>, d: Delimiter, s: nat)
    requires Consumes(d) && s <= |h|
    ensures Advance(h, d, Some(s)).1.None? || Advance(h, d, Some(s)).1.value > s
    ensures Measure(h, Advance(h, d, Some(s)).1) < Measure(h, Some(s))
  {
  }

  /**
   * The empty literal matches at the front of every remainder, so a step
   * yields an empty segment and leaves the remainder where it was: the
   * iteration never ends.
   */
  lemma EmptyLiteralStalls(h: seq<Byte>, s: nat)
    requires s <= |h|
    ensures Advance(h, Literal([]), Some(s)) == (Some(Span(s, s)), Some(s))
  {
    assert OccursAt(h, [], s);
  }

  /**
   * The partition determines the split: any spans that tile the haystack
   * from `s` to its end are exactly the ones the iterator yields.
   */
  lemma {:induction false} TilingIsUnique(h: seq<Byte>, d: Delimiter, s: nat, spans: seq<Span>)
    requires Consumes(d)
    requires Tiles(h, Pattern(d), s, spans, None)
    ensures s <= |h|
    ensures spans == SplitFrom(h, d, Some(s))
    decreases |spans|
  {
    FirstSpanIsYielded(h, d, s, spans);
    if |spans| > 1 {
      var t := spans[0].hi + |Pattern(d)|;
      TilingIsUnique(h, d, t, spans[1..]);
      SplitFromStep(h, d, s, Some(t), spans[1..]);
    } else {
      SplitFromStep(h, d, s, None, []);
    }
    assert spans == [spans[0]] + spans[1..];
  }

  /** `Split` is the one complete tiling of the haystack. */
  lemma SplitIsUnique(h: seq<Byte>, d: Delimiter, spans: seq<Span>)
    requires Consumes(d)
    requires Produced(h, Pattern(d), spans, None)
    ensures Split(h, d) == spans
  {
    if |h| > 0 {
      TilingIsUnique(h, d, 0, spans);
    }
  }

  /**
   * The iterator. `remainder` is the offset of the unconsumed tail of
   * `haystack`, or None once exhausted; `Some(|haystack|)` is the live state
   * in which one more, empty, segment is still owed. The ghost `yielded`
   * records the spans handed out so far.
   */
  class StrSplit {
    const haystack: seq<Byte>
    const delimiter: Delimiter
    var remainder: Option<nat>
    ghost var yielded: seq<Span>

    /** The remainder is a tail of the haystack, and what was yielded leads up to it. */
    ghost predicate Valid()
      reads this
    {
      && InRange(haystack, remainder)
      && SpansInRange(haystack, yielded)
      && Produced(haystack, Pattern(delimiter), yielded, remainder)
    }

    /** `StrSplit::new`: exhausted from the start when the haystack is empty. */
    constructor (haystack: seq<Byte>, delimiter: Delimiter)
      ensures Valid()
      ensures this.haystack == haystack && this.delimiter == delimiter
      ensures remainder == Start(haystack) && yielded == []
    {
      this.haystack := haystack;
      this.delimiter := delimiter;
      remainder := Start(haystack);
      yielded := [];
    }

    /**
     * `Iterator::next`: yields the part of the remainder before the first
     * delimiter and moves the remainder past it, or, with no delimiter left,
     * yields the whole remainder and becomes exhausted. Once exhausted it
     * yields nothing and changes nothing.
     */
    method Next() returns (item: Option<seq<Byte>>)
      requires Valid()
      modifies this
      ensures Valid()
      ensures old(remainder).None? ==> item.None? && remainder.None? && yielded == old(yielded)
      ensures remainder == Advance(haystack, delimiter, old(remainder)).1
      ensures item == View(haystack, Advance(haystack, delimiter, old(remainder)).0)
      ensures yielded == old(yielded) + Listed(Advance(haystack, delimiter, old(remainder)).0)
    {
      ProducedStep(haystack, delimiter, yielded, remainder);
      match remainder
      case None =>
        item := None;
      case Some(s) =>
        var rest := haystack[s..];
        match FindNext(delimiter, rest)
        case Some((start, end)) =>
          AdvanceFound(haystack, delimiter, s, start, end);
          item := Some(rest[..start]);
          remainder := Some(s + end);
          yielded := yielded + [Span(s, s + start)];
        case None =>
          AdvanceNotFound(haystack, delimiter, s);
          item := Some(rest);
          remainder := None;
          yielded := yielded + [Span(s, |haystack|)];
    }
  }

  /**
   * `StrSplit::new(haystack, delimiter).collect::<Vec<_>>()`: pulls items
   * until the iterator is exhausted. The items are the segments of `Split`.
   */
  method CollectSplit(haystack: seq<Byte>, delimiter: Delimiter) returns (items: seq<seq<Byte>>)
    requires Consumes(delimiter)
    ensures items == Segments(haystack, Split(haystack, delimiter))
  {
    var it := new StrSplit(haystack, delimiter);
    items := [];
    while true
      invariant it.Valid()
      invariant it.haystack == haystack && it.delimiter == delimiter
      invariant items == Segments(haystack, it.yielded)
      decreases Measure(haystack, it.remainder)
    {
      ghost var before := it.yielded;
      var item := it.Next();
      if item.None? {
        break;
      }
      items := items + [item.value];
      SegmentsAppend(haystack, before, it.yielded[|before|]);
      assert it.yielded == before + [it.yielded[|before|]];
    }
    if |haystack| > 0 {
      TilingIsUnique(haystack, delimiter, 0, it.yielded);
    }
  }

  /**
   * `until_char`: the first item of a split on a char. None exactly for an
   * empty haystack; otherwise the prefix before the first occurrence of the
   * char, or the whole haystack when the char does not occur.
   */
  method UntilChar(haystack: seq<Byte>, delimiter: CodePoint) returns (r: Option<seq<Byte>>)
    ensures r.None? <==> |haystack| == 0
    ensures r.Some? ==>
              && |r.value| <= |haystack|
              && r.value == haystack[..|r.value|]
              && AbsentIn(haystack, Encode(delimiter), 0, |r.value|)
              && (OccursAt(haystack, Encode(delimiter), |r.value|) || |r.value| == |haystack|)
    ensures r.Some? && |r.value| == |haystack| ==> AbsentIn(haystack, Encode(delimiter), 0, |haystack| + 1)
  {
    var it := new StrSplit(haystack, Char(delimiter));
    r := it.Next();
  }
}
