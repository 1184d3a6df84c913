/**
 * The UTF-8 encoding of a single Unicode scalar value (a Rust `char`), as
 * tabulated in section 3 of RFC 3629. A `char` delimiter is searched for as
 * the byte pattern of its encoding, and its match is `len_utf8` bytes wide.
 */
module Utf8 {
  import opened Wrappers

  /** One byte of an encoded text. */
  type Byte = b: int | 0 <= b < 0x100

  /** A Unicode scalar value: the range of a Rust `char` (no surrogates). */
  type CodePoint = c: int | 0 <= c < 0x11_0000 && !(0xD800 <= c < 0xE000)

  /** A byte of the form 10xxxxxx, which never starts an encoded character. */
  predicate IsContinuation(b: Byte) {
    0x80 <= b < 0xC0
  }

  /** `char::len_utf8`: the number of bytes that encode `c`. */
  function EncodedLength(c: CodePoint): (n: nat)
    ensures 1 <= n <= 4
    ensures n == 1 <==> c < 0x80
  {
    if c < 0x80 then 1
    else if c < 0x800 then 2
    else if c < 0x1_0000 then 3
    else 4
  }

  /** The UTF-8 byte sequence of `c`: a lead byte followed by continuation bytes. */
  function Encode(c: CodePoint): (bs: seq<Byte>)
    ensures |bs| == EncodedLength(c)
    ensures !IsContinuation(bs[0])
    ensures forall i :: 1 <= i < |bs| ==> IsContinuation(bs[i])
  {
    // c / 0x40 drops the low six bits of c, which a continuation byte carries
    if c < 0x80 then
      [c]
    else if c < 0x800 then
      [0xC0 + c / 0x40, 0x80 + c % 0x40]
    else if c < 0x1_0000 then
      [0xE0 + c / 0x40 / 0x40, 0x80 + c / 0x40 % 0x40, 0x80 + c % 0x40]
    else
      [0xF0 + c / 0x40 / 0x40 / 0x40, 0x80 + c / 0x40 / 0x40 % 0x40, 0x80 + c / 0x40 % 0x40, 0x80 + c % 0x40]
  }

  /** The six payload bits of a continuation byte. */
  function Payload(b: Byte): int {
    b as int - 0x80
  }

  /**
   * Reads back the scalar value from exactly the bytes of one encoded
   * character; None for anything that is not the shortest encoding of a
   * scalar value (overlong forms, surrogates, values past U+10FFFF).
   */
  function Decode(bs: seq<Byte>): (r: Option<CodePoint>)
  {
    if |bs| == 1 && bs[0] < 0x80 then
      Some(bs[0])
    else if |bs| == 2 && 0xC2 <= bs[0] < 0xE0 && IsContinuation(bs[1]) then
      Some((bs[0] as int - 0xC0) * 0x40 + Payload(bs[1]))
    else if |bs| == 3 && 0xE0 <= bs[0] < 0xF0 && IsContinuation(bs[1]) && IsContinuation(bs[2]) then
      var c := ((bs[0] as int - 0xE0) * 0x40 + Payload(bs[1])) * 0x40 + Payload(bs[2]);
      if 0x800 <= c && !(0xD800 <= c < 0xE000) then Some(c) else None
    else if |bs| == 4 && 0xF0 <= bs[0] < 0xF8 && IsContinuation(bs[1]) && IsContinuation(bs[2])
         && IsContinuation(bs[3]) then
      var c := (((bs[0] as int - 0xF0) * 0x40 + Payload(bs[1])) * 0x40 + Payload(bs[2])) * 0x40 + Payload(bs[3]);
      if 0x1_0000 <= c < 0x11_0000 then Some(c) else None
    else
      None
  }

  /** Decoding undoes encoding. */
  lemma DecodeEncode(c: CodePoint)
    ensures Decode(Encode(c)) == Some(c)
  {
  }

  /** Encoding undoes decoding: every accepted byte sequence is the encoding of what it decodes to. */
  lemma EncodeDecode(bs: seq<Byte>)
    requires Decode(bs).Some?
    ensures Encode(Decode(bs).value) == bs
  {
    if |bs| == 2 {
      EncodeTwo(bs[0], bs[1]);
      assert bs == [bs[0], bs[1]];
    } else if |bs| == 3 {
      EncodeThree(bs[0], bs[1], bs[2]);
      assert bs == [bs[0], bs[1], bs[2]];
    } else if |bs| == 4 {
      EncodeFour(bs[0], bs[1], bs[2], bs[3]);
      assert bs == [bs[0], bs[1], bs[2], bs[3]];
    }
  }

  /** A two-byte sequence accepted by `Decode` is an encoding. */
  lemma EncodeTwo(b0: Byte, b1: Byte)
    requires Decode([b0, b1]).Some?
    ensures Encode(Decode([b0, b1]).value) == [b0, b1]
  {
    SixBits(b0 as int - 0xC0, Payload(b1));
  }

  /** A three-byte sequence accepted by `Decode` is an encoding. */
  lemma EncodeThree(b0: Byte, b1: Byte, b2: Byte)
    requires Decode([b0, b1, b2]).Some?
    ensures Encode(Decode([b0, b1, b2]).value) == [b0, b1, b2]
  {
    var q := (b0 as int - 0xE0) * 0x40 + Payload(b1);
    var c := q * 0x40 + Payload(b2);
    assert Decode([b0, b1, b2]) == Some(c);
    SixBits(q, Payload(b2));
    SixBits(b0 as int - 0xE0, Payload(b1));
  }

  /** A four-byte sequence accepted by `Decode` is an encoding. */
  lemma EncodeFour(b0: Byte, b1: Byte, b2: Byte, b3: Byte)
    requires Decode([b0, b1, b2, b3]).Some?
    ensures Encode(Decode([b0, b1, b2, b3]).value) == [b0, b1, b2, b3]
  {
    var q1 := (b0 as int - 0xF0) * 0x40 + Payload(b1);
    var q2 := q1 * 0x40 + Payload(b2);
    var c := q2 * 0x40 + Payload(b3);
    assert Decode([b0, b1, b2, b3]) == Some(c);
    SixBits(q2, Payload(b3));
    SixBits(q1, Payload(b2));
    SixBits(b0 as int - 0xF0, Payload(b1));
  }

  /** Appending six low bits to `q` and taking them off again. */
  lemma SixBits(q: int, r: int)
    requires 0 <= q && 0 <= r < 0x40
    ensures (q * 0x40 + r) / 0x40 == q
    ensures (q * 0x40 + r) % 0x40 == r
  {
  }

  /** Distinct characters have distinct encodings, so a byte pattern names one character. */
  lemma EncodeInjective(c: CodePoint, d: CodePoint)
    requires Encode(c) == Encode(d)
    ensures c == d
  {
    DecodeEncode(c);
    DecodeEncode(d);
  }
}
