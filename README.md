# strsplit in Dafny

A model of the `strsplit` crate: a lazy iterator, `StrSplit`, that cuts a
haystack into the segments between occurrences of a delimiter. It is
generic over a `Delimiter` strategy, with two implementations, a `char` and
a `&str` literal. There is also a one-shot helper, `until_char`, which
returns the first segment of a split on a `char`.

Texts are byte sequences (`seq<Byte>`). A Rust `&str` view into the
haystack is a pair of offsets (`Span(lo, hi)`). The iterator's
`remainder: Option<&str>` is an `Option<nat>`: the offset where the
not-yet-split tail starts, or `None` once the iterator is exhausted. So
every yielded item and every remainder is a sub-range of the original
haystack by construction. `Some` of an offset equal to the haystack's
length is the "present but empty" state, which still owes one (empty)
segment.

Modules:

- `Wrappers` holds `Option`.
- `Utf8` holds the UTF-8 encoding of a `char` (the table in section 3 of
  RFC 3629), `len_utf8`, and a decoder that inverts it.
- `Delimiters` holds first-occurrence search (`str::find`) and
  `Delimiter::find_next` for both strategies.
- `Splitting` holds:
  - the step function `Advance`;
  - `StrSplit` as a class with a mutable `remainder` and its `Next` method;
  - `CollectSplit`, which is `collect::<Vec<_>>()`;
  - `UntilChar`;
  - the partition and reconstruction laws.
- `Examples` holds the crate's unit tests as verified clients.

The laws are stated against a declarative description of a split,
`Tiles`. Each span starts where the previous match ended. It contains no
occurrence of the delimiter. It is followed by an occurrence of the
delimiter, or, for the last span of an exhausted iterator, by the end of
the haystack. The iterator's class invariant says that the spans yielded
so far and the current remainder tile the haystack. `Split` (everything a
fresh iterator yields) is proved to be a tiling, and to be the only
complete tiling.

## Model

| member | source | states |
|---|---|---|
| Utf8.EncodedLength | strsplit/src/lib.rs:25 | `len_utf8` is 1 to 4 bytes, and 1 exactly for ASCII |
| Utf8.Encode | strsplit/src/lib.rs:23-26 | a char's pattern is `len_utf8` bytes: one lead byte, then continuation bytes only |
| Utf8.DecodeEncode | strsplit/src/lib.rs:23-26 | decoding a char's pattern gives the char back |
| Utf8.EncodeDecode | strsplit/src/lib.rs:23-26 | every byte sequence the decoder accepts is the pattern of the char it decodes to |
| Utf8.EncodeTwo | strsplit/src/lib.rs:23-26 | an accepted two-byte sequence is a char's pattern |
| Utf8.EncodeThree | strsplit/src/lib.rs:23-26 | an accepted three-byte sequence is a char's pattern |
| Utf8.EncodeFour | strsplit/src/lib.rs:23-26 | an accepted four-byte sequence is a char's pattern |
| Utf8.EncodeInjective | strsplit/src/lib.rs:23-26 | distinct chars have distinct patterns: no other char has the same bytes |
| Delimiters.FindFrom | strsplit/src/lib.rs:25 | the search from offset `i` returns an occurrence with none between `i` and it, or None when no occurrence starts at or after `i` |
| Delimiters.Find | strsplit/src/lib.rs:31 | `str::find` returns the lowest offset where the pattern occurs, or None when it occurs nowhere |
| Delimiters.FindIsFirst | strsplit/src/lib.rs:31 | conversely, an occurrence with none before it is what `str::find` returns |
| Delimiters.Width | strsplit/src/lib.rs:25-31 | the width added to the match start (`len_utf8` or `len`) is the length of the bytes matched |
| Delimiters.FindNext | strsplit/src/lib.rs:19-33 | `find_next` returns a span holding exactly the delimiter's bytes, with no occurrence before it, and returns None if and only if the delimiter does not occur |
| Delimiters.CharSpanWidth | strsplit/src/lib.rs:23-26 | a char match is `len_utf8` bytes wide, so between 1 and 4 |
| Delimiters.EmptyLiteralMatchesAtStart | strsplit/src/lib.rs:29-32 | an empty literal matches at 0 with an empty span |
| Splitting.Start | strsplit/src/lib.rs:11-16 | the initial remainder is None exactly for an empty haystack, and otherwise is the whole haystack |
| Splitting.Advance | strsplit/src/lib.rs:37-46 | one `next` step. An absent remainder stays absent and yields nothing. A live one yields the bytes up to the first delimiter and resumes one delimiter later. With no delimiter left it yields the rest and becomes absent |
| Splitting.AdvanceFound | strsplit/src/lib.rs:39-42 | when `find_next` reports `(start, end)` in the remainder, the item is `remainder[..start]` and the new remainder starts at `end` |
| Splitting.AdvanceNotFound | strsplit/src/lib.rs:43-44 | when `find_next` finds nothing, the item is the whole remainder and the iterator becomes exhausted |
| Splitting.AdvanceStopsAt | strsplit/src/lib.rs:39-42 | from `s`, with the first occurrence at `i`, the step yields `[s, i)` and resumes after the delimiter |
| Splitting.AdvanceRunsOut | strsplit/src/lib.rs:43-44 | with no occurrence from `s` on, the step yields `[s, end)` and exhausts |
| Splitting.AdvanceShrinks | strsplit/src/lib.rs:39-44 | with a non-empty delimiter every step moves a live remainder strictly forward or exhausts it, so iteration ends |
| Splitting.EmptyLiteralStalls | strsplit/src/lib.rs:31 | with the empty literal a step yields an empty segment and leaves the remainder where it was, so the iterator never ends |
| Splitting.TilesStep | strsplit/src/lib.rs:37-46 | one step from a live remainder is a one-span tiling |
| Splitting.TilesSnoc | strsplit/src/lib.rs:37-46 | a tiling that leaves remainder `t`, followed by a tiling from `t`, is a single tiling |
| Splitting.TilesExtend | strsplit/src/lib.rs:37-46 | a live remainder lies within the haystack, and a step extends the tiling by the span it yields |
| Splitting.ProducedStep | strsplit/src/lib.rs:37-46 | every `next`, including one on an exhausted iterator, keeps the yielded spans and the remainder tiling the haystack |
| Splitting.TilesPartition | strsplit/src/lib.rs:39-44 | the yielded spans lie in the haystack, left to right. Each is followed by an occurrence of the delimiter, and the next one starts right after it. They neither overlap each other nor a delimiter. The remainder starts one delimiter after the last span. An exhausted split's last span ends at the end of the haystack |
| Splitting.TilesReconstruct | strsplit/src/lib.rs:39-44 | the yielded segments, followed by the remainder while live, joined by the delimiter, rebuild the haystack from the tiling's start |
| Splitting.ProducedReconstructs | strsplit/src/lib.rs:39-44 | at every point of an iteration, what was yielded plus the remainder, joined by the delimiter, is exactly the haystack |
| Splitting.SplitFrom | strsplit/src/lib.rs:35-47 | what an iterator still yields is empty exactly when it is exhausted, and lies within the haystack |
| Splitting.SplitFromTiles | strsplit/src/lib.rs:35-47 | what an iterator still yields tiles the rest of the haystack |
| Splitting.Split | strsplit/src/lib.rs:11-16 | a fresh iterator yields no segment exactly when the haystack is empty |
| Splitting.SplitReconstructs | strsplit/src/lib.rs:35-47 | all the segments of a split, joined by the delimiter, rebuild the haystack, and they form a complete tiling |
| Splitting.SplitFromStep | strsplit/src/lib.rs:37-46 | a live remainder yields its `Advance` span and then whatever the next remainder yields |
| Splitting.FirstSpanIsYielded | strsplit/src/lib.rs:37-46 | the first span of any complete tiling is the span `next` yields first |
| Splitting.TilingIsUnique | strsplit/src/lib.rs:35-47 | any complete tiling from a remainder is exactly what the iterator yields from it |
| Splitting.SplitIsUnique | strsplit/src/lib.rs:35-47 | any complete tiling of the haystack is exactly `Split`, so the partition law determines the output |
| Splitting.StrSplit.constructor | strsplit/src/lib.rs:11-16 | `new` stores the delimiter and sets the remainder to None for an empty haystack, else to the whole haystack |
| Splitting.StrSplit.Next | strsplit/src/lib.rs:37-46 | `next` changes the remainder and returns the item exactly as `Advance` says. It keeps the tiling invariant. Once the remainder is None, `next` yields None and changes nothing |
| Splitting.CollectSplit | strsplit/src/lib.rs:69 | pulling items until exhaustion collects exactly the segments of `Split`, in order |
| Splitting.UntilChar | strsplit/src/lib.rs:49-51 | `until_char` returns None exactly for an empty haystack. Otherwise it returns the prefix before the first occurrence of the char, or the whole haystack when the char does not occur |
| Examples.HelloWorldFirstStep | strsplit/src/lib.rs:58-61 | the first step over "hello world" on " " yields "hello" and resumes at byte 6 |
| Examples.HelloWorldSecondStep | strsplit/src/lib.rs:58-63 | the second step yields "world" and exhausts |
| Examples.SplitHelloWorld | strsplit/src/lib.rs:58-64 | `test_str_split`: "hello", then "world", then None |
| Examples.DigitsSplit | strsplit/src/lib.rs:66-72 | "1 2 3 4 5" on " " splits at the five digits |
| Examples.DigitsSegments | strsplit/src/lib.rs:66-72 | those spans view "1" through "5" |
| Examples.CollectDigits | strsplit/src/lib.rs:66-72 | `test_longer_string`: collects to "1", "2", "3", "4", "5" |
| Examples.TrailingSplit | strsplit/src/lib.rs:74-80 | "1 2 3 4 " ends with an empty span after the last delimiter |
| Examples.TrailingSegments | strsplit/src/lib.rs:74-80 | those spans view "1" to "4" and then "" |
| Examples.CollectTrailing | strsplit/src/lib.rs:74-80 | `test_string_with_tail`: collects to "1", "2", "3", "4", "" |
| Examples.CollectEmpty | strsplit/src/lib.rs:82-88 | `test_empty`: the empty haystack yields None at once and collects to nothing |
| Examples.CollectSingleDelimiter | strsplit/src/lib.rs:90-96 | `test_single_delimiter`: " " collects to "", "" |
| Examples.UntilSpace | strsplit/src/lib.rs:98-103 | `test_until_char`: "hello world" up to ' ' is "hello" |
| Examples.SharpSEncoding | strsplit/src/lib.rs:105-110 | 'ß' (U+00DF) is encoded as the two bytes C3 9F |
| Examples.FindSharpS | strsplit/src/lib.rs:105-110 | in "helloßworld", `find_next` for 'ß' reports bytes 5 to 7 |
| Examples.UntilSharpS | strsplit/src/lib.rs:105-110 | `test_until_ut8_char`: "helloßworld" up to 'ß' is "hello" |

## Left out

- Lifetimes and borrowing (`'a`): views are offset ranges into the haystack, not references. No bytes are copied in the source either.
- The algorithm inside `str::find` is not modelled. It is specified as a first-occurrence search over bytes (`Find`), which is what it returns.
- UTF-8 validity of the haystack and char-boundary checks on slicing: the haystack is any byte sequence. A `char` delimiter is found by searching for its encoded bytes. For a valid UTF-8 haystack this finds the same first occurrence as a search by characters, because the encoding is self-synchronising. That equivalence is not proved here.
- The open `Delimiter` trait: the model has a closed datatype with exactly the two implementations the crate provides. User-defined delimiters are not covered.
- `Iterator` adapters other than `collect`. `CollectSplit` is the collecting loop over `next`.
- `usize` arithmetic: offsets are unbounded naturals. `i + len` cannot overflow for in-bounds matches, so nothing is lost.
- CollectSplit: requires a delimiter that matches at least one byte. With the empty literal the source loops forever, which `EmptyLiteralStalls` states instead of a result.
- Texts in the examples are written as their UTF-8 bytes, not as string literals.
