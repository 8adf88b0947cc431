# HLS media-segment codec, modelled in Dafny

This project models the media-segment part of the `m3u8` package of
`swills/streaming` (`m3u8/segment.go`). That part covers the segment tags of
section 4.4.4 of RFC 8216 and has three operations:

- **`parseSegment`** builds one `Segment` from the lexer's typed tokens. It
  is given a leading token that has already been read. If that token is
  `#EXTINF`, the next token is read as the duration. The function then pulls
  tokens until a URL finishes the segment. An error token, a tag it does not
  support, a bad operand, or running out of tokens each end in a failure.
- **`parseSegmentDuration`** turns a number or attribute-name token into a
  `time.Duration`. Text with no `.` goes through `strconv.Atoi` as whole
  seconds. Text whose part after the first `.` is empty does the same with
  the part before the `.`. Everything else goes through a floating-point
  fallback that truncates to whole microseconds.
- **`writeSegments`** works through the segments in order. It refuses an
  empty URI, then a zero duration. Otherwise it writes the discontinuity,
  date-range, byte-range, key, map, program-date-time, `#EXTINF` and URI
  lines, leaving out each optional line whose field has its default value.

The modules follow that structure:

- `Tokens`: token kinds and tag names.
- `Numbers`: `strconv.Atoi` and its inverse.
- `Durations`: `parseSegmentDuration`, plus the writer's truncating
  microsecond division.
- `Segments`: the `Segment` record.
- `Decoder`: `parseSegment`.
- `Encoder`: `writeSegments`.
- `Codec`: how the two directions meet.

The token channel is a finite sequence read from the front. A prefix the loop
"walks" is one it reads to the end through handled tags, their operands and
skipped tokens, without finishing or failing (`Decoder.Walk`); several lemmas
are stated after any such prefix. A successful
decode also returns the tokens it did not read. The writer is the sequence of
lines written so far. Every line is tagged with the field it renders, so
order and presence can be stated. Durations are unbounded integer nanoseconds (Go's are int64).

Some helpers sit outside this model. They are passed in as function-valued
fields instead:

- `Decoder.Externals`: the float fallback and `parseByteRange`.
- `Encoder.Formatters`: `writeDateRange`, `writeMap`, the `%s` text of a
  range and of a key, `Format(RFC3339Milli)`, and the `%.03f` text of a
  microsecond count.

Where the code is easy to misread, this model follows the code:

- **All-zero fractions.** The code's comments (segment.go:85-87, 98) say
  `10.000` takes the exact integer path. The loop at segment.go:101 is
  `for r := range after`, and ranging over a Go string yields byte
  *indices*. Index 0 is never the rune `'0'`, so the flag survives only an
  empty fraction (`IndicesAllZeroRune`). `10.` is exact. `10.000` takes the
  float fallback (`NonEmptyFractionTakesFloatPath`).
- **Partial output.** Writing is not all-or-nothing. When a segment fails,
  the lines of earlier segments are already written. If the date-range
  helper fails, the segment's own discontinuity line is already written too.
  The returned count is always 0.
- **Error tokens as operands.** An error token that is the operand of
  `#EXTINF` or `#EXT-X-BYTERANGE` fails as a bad duration or a non-string
  operand. It does not fail as an upstream error.
- **Other leading tokens are ignored.** Only a leading `#EXTINF` has an
  effect. A leading `#EXT-X-DISCONTINUITY` does not set the flag, and a
  leading `#EXT-X-KEY` is not refused.
- **No explicit "no byte range".** Absence is the pair `(0, 0)`, as in the
  code's `[2]int`.

## Model

| member | source | states |
|---|---|---|
| Numbers.Atoi | m3u8/segment.go:91-96 | a result exists exactly when the text is an optional sign followed by at least one ASCII digit; the sign decides the sign of the value |
| Numbers.AtoiOfItoa | m3u8/segment.go:92 | reading back the canonical decimal text of any integer gives that integer |
| Durations.IndicesAllZeroRune | m3u8/segment.go:100-105 | the all-zero flag of the index-ranging loop survives exactly when the fraction is empty |
| Durations.Cut | m3u8/segment.go:99 | the text splits at its first `.` (none in the part before); without a `.` it is all "before" |
| Durations.CutAtFirst | m3u8/segment.go:99 | any prefix without a `.` followed by a `.` is exactly what Cut returns as "before", whatever follows |
| Durations.FloatPath | m3u8/segment.go:113-119 | the fallback fails, as a float error on the literal, exactly when the float conversion fails; otherwise the value is the converted microsecond count times 1000 ns |
| Durations.WholeSeconds | m3u8/segment.go:92-96 | succeeds exactly on Atoi syntax, with Atoi's value times one second; otherwise fails as an integer error on the literal |
| Durations.ParseSegmentDuration | m3u8/segment.go:81-120 | wrong-kind failure exactly for tokens that are neither numbers nor attribute names; text with no `.` succeeds exactly when Atoi accepts it, as that many seconds; an empty fraction does the same with the part before the `.`; a non-empty fraction succeeds exactly when the float conversion does, with its microseconds; each failure names its cause; every result is whole microseconds |
| Durations.IntegerLiteralIsExact | m3u8/segment.go:91-96 | the decimal text of any integer n decodes to exactly n seconds |
| Durations.EmptyFractionIsExact | m3u8/segment.go:98-111 | `n.` decodes to exactly n seconds |
| Durations.NonEmptyFractionTakesFloatPath | m3u8/segment.go:98-119 | any non-empty fraction, `000` included, sends the whole literal to the float fallback |
| Durations.InMicroseconds | m3u8/segment.go:150 | the microsecond count is the duration divided by 1000, truncated toward zero for either sign |
| Durations.WholeMicrosecondsRoundTrip | m3u8/segment.go:150 | a whole number of microseconds, of either sign, is unchanged by the truncating division and multiplying back |
| Durations.DecodedDurationKeepsMicroseconds | m3u8/segment.go:117-119 | a decoded duration loses nothing when divided back into microseconds |
| Decoder.ReadDuration | m3u8/segment.go:53-58 | fails with a missing operand exactly on empty input; otherwise succeeds exactly when the next token parses, giving that parse and consuming one token, and fails with the parse error when it does not |
| Decoder.ReadByteRange | m3u8/segment.go:59-68 | fails with a missing operand exactly on empty input; a non-String operand fails as a kind error carrying that token; success exactly when `parseByteRange` accepts the string, giving its range and consuming one token; otherwise fails with `parseByteRange`'s error |
| Decoder.NextStep | m3u8/segment.go:42-77 | a URL finishes with its value; an error token fails with its own text; the refused tags are exactly those outside the handled three; `#EXTINF` and `#EXT-X-BYTERANGE` fail exactly when reading their operand fails, with that error, and otherwise set the operand's parse and consume two tokens; non-tag tokens and the discontinuity tag are skipped; no token consumed by an edit is a URL or an error |
| Decoder.Apply | m3u8/segment.go:58-70 | a duration edit sets the duration, a range edit sets the range, a discontinuity edit sets the flag, and nothing else changes |
| Decoder.Accumulate | m3u8/segment.go:42-78 | on success the URL token is the last token consumed and the first URL or error token in the stream, its value is the URI, and the untouched suffix is returned; pass-through fields are kept, the discontinuity flag is never cleared, and a whole-microsecond duration stays whole; with no `#EXTINF` the duration is kept, and with no `#EXT-X-BYTERANGE` the range is kept |
| Decoder.ParseSegment | m3u8/segment.go:28-79 | success only through the first URL, leaving the rest of the tokens unread; a leading `#EXTINF` whose operand fails to read fails with that error; a decoded segment has no key, map, date range or date-time; no URL token means failure; with no `#EXTINF` anywhere the duration is zero, and with no `#EXT-X-BYTERANGE` there is no range |
| Decoder.AccumulateIsCollectThenApply | m3u8/segment.go:42-78 | the loop is equal to reading the edits up to the URL and then applying them in order |
| Decoder.LastDurationWins | m3u8/segment.go:52-58 | when edits are applied, the last duration edit decides the duration |
| Decoder.LastRangeWins | m3u8/segment.go:59-68 | when edits are applied, the last range edit decides the byte range |
| Decoder.DecodedDurationIsLast | m3u8/segment.go:52-58 | when the loop decodes a segment, the operand of the last `#EXTINF` before the URL parses, and the segment's duration is that parse, whatever tokens of later segments follow the URL |
| Decoder.DecodedRangeIsLast | m3u8/segment.go:59-68 | when the loop decodes a segment, the operand of the last `#EXT-X-BYTERANGE` before the URL is a string that `parseByteRange` accepts, and the segment's range is its result, whatever follows the URL |
| Decoder.DiscontinuityIffMarked | m3u8/segment.go:69-70 | the flag is set exactly when it already was or a discontinuity tag was read |
| Decoder.InertPrefixOnlyMarks | m3u8/segment.go:46-76 | a run of skipped tokens and discontinuity tags only sets the flag; decoding resumes after it |
| Decoder.WalkedPrefix | m3u8/segment.go:42-77 | decoding through a prefix the loop walks applies that prefix's edits in order, then carries on with what follows, whatever it is |
| Decoder.AccumulateIgnoresAfter | m3u8/segment.go:42-48 | the loop returns at the URL: appending tokens after a decodable stream leaves the segment unchanged and hands the appended tokens back untouched |
| Decoder.ParseSegmentIgnoresAfter | m3u8/segment.go:28-48 | the same for a whole `parseSegment` call, so each segment on a shared channel is decoded from its own tokens only |
| Decoder.InertPrefixWalks | m3u8/segment.go:46-76 | the loop walks through any run of skipped tokens and discontinuity tags, one edit per token |
| Decoder.ErrorBeforeUrlFails | m3u8/segment.go:43-44 | an error token the loop reaches, after any prefix it walks through (operands included), fails with exactly its text, whatever follows |
| Decoder.UnhandledTagFails | m3u8/segment.go:71-74 | a tag outside the handled three (key, map, gap, bitrate, part, …) that the loop reaches, after any prefix it walks through, fails as unsupported with that token |
| Decoder.OtherSegmentTagsRefused | m3u8/segment.go:71-74 | the key, map, program-date-time, gap, bitrate, part and date-range tags are each refused as unsupported |
| Decoder.RunningOutFailsNoUrl | m3u8/segment.go:42-78 | tokens the loop walks through to the end without a URL give "no url" |
| Decoder.DurationThenNothingGivesNoUrl | m3u8/segment.go:52-78 | `#EXTINF` `10` with nothing after it ends in "no url" |
| Decoder.RangeThenErrorFails | m3u8/segment.go:43-68 | a byte range with an operand `parseByteRange` accepts, then an error token, fails with that token's text |
| Decoder.LeadingDurationIsLoopDuration | m3u8/segment.go:30-40 | a leading `#EXTINF` acts exactly like one met inside the loop |
| Decoder.OtherLeadingIgnored | m3u8/segment.go:30-41 | any other leading token has no effect |
| Decoder.TenSecondSegment | m3u8/segment.go:33-49 | `#EXTINF`, `10`, URL `a.ts` decodes to a ten-second segment with that URI and consumes every token |
| Decoder.FirstOfTwoSegments | m3u8/segment.go:33-49 | on `#EXTINF 10, a.ts, #EXTINF 5, b.ts` the first call gives ten seconds and `a.ts` and leaves the second segment's three tokens unread |
| Encoder.Validate | m3u8/segment.go:124-129 | a segment passes exactly when its URI is non-empty and its duration non-zero; an empty URI is reported first |
| Encoder.WriteSegment | m3u8/segment.go:123-154 | a segment that fails validation writes nothing; otherwise the only failure is the date-range helper's, with its reason |
| Encoder.FailedSegmentLines | m3u8/segment.go:130-136 | after a failure, the only line of that segment left written is its discontinuity line, and only for a date-range failure |
| Encoder.WrittenSegmentEnding | m3u8/segment.go:150-153 | a written segment ends with its `#EXTINF` line, then its URI |
| Encoder.WrittenLinesByKind | m3u8/segment.go:130-153 | for each field, the lines of that kind are exactly what the field calls for, so a default field writes no line |
| Encoder.WriteSegmentInOrder | m3u8/segment.go:130-153 | lines come in the order discontinuity, date range, byte range, key, map, date-time, duration, URI; no single-line kind repeats |
| Encoder.PlainSegmentWritesTwoLines | m3u8/segment.go:130-153 | a segment with only a duration and a URI writes exactly its `#EXTINF` line and its URI |
| Encoder.UndatedSegmentTexts | m3u8/segment.go:130-153 | a valid segment with no date range, key, map or date-time writes without error exactly its optional discontinuity and byte-range lines, its `#EXTINF` line and its URI |
| Encoder.WriteSegments | m3u8/segment.go:122-156 | the count is 0; success exactly when every segment writes; on success all segments' text in order; on failure the first failing segment's error, after the text of all earlier segments |
| Encoder.TenSecondSegmentText | m3u8/segment.go:150-153 | a ten-second `a.ts` segment is written as `#EXTINF:` with the text of 10,000,000 microseconds, then `a.ts` |
| Codec.DecodedSegmentRewrites | m3u8/segment.go:130-153 | a decoded segment with a URI and a non-zero duration writes at most its discontinuity, byte-range, `#EXTINF` (exact microseconds) and URI lines, in that order |
| Codec.SegmentWithoutDurationTagIsRejected | m3u8/segment.go:124-129 | a segment whose own tokens (up to its URL) hold no `#EXTINF` is decoded with zero duration, whatever later segments follow, and is refused by the writer, which writes nothing |

## Left out

- The float fallback of `parseSegmentDuration` (`ParseFloat(…, 32)`, `* 1e6`, truncating conversion) is floating point. It is the opaque partial function `Externals.floatMicros`, giving whole microseconds or failing.
- The `%.03f` rendering of `float32(us)/1e6` is float32 formatting. It is the opaque `Formatters.seconds`, a function of the integer microsecond count.
- Several helpers are not part of this model, so they are opaque parameters: `parseByteRange`, `writeDateRange`, `writeMap`, the `%s` text of `Key` and of `Range`, and `Format(RFC3339Milli)`. `writeDateRange` is taken to write all its lines or none.
- The lexer is not part of this model. That includes the zero `item` that a receive on a closed channel yields. A missing operand after `#EXTINF` or `#EXT-X-BYTERANGE` is modelled as the failure `MissingOperand`.
- Channel and goroutine semantics of `items chan item` are not modelled. The channel is only an ordered sequence.
- `io.Writer` errors are ignored by the code, and are not modelled.
- Error texts built with `fmt.Errorf` around item formatting are not reproduced. Errors are structured values. The error-token text (`Upstream`) and "no url" (`NoUrl`) are carried exactly.
- Numbers.Atoi: does not model the out-of-range error for values beyond 64 bits, because integers here are unbounded.
- Durations.WholeSeconds: does not model the int64 overflow of `time.Duration(i) * time.Second`, because integers here are unbounded.
- Durations.FloatPath: does not model the int64 overflow of `time.Duration(microseconds) * time.Microsecond` (segment.go:119), because integers here are unbounded. Go wraps that product silently, so the whole-microsecond claims of `Durations.ParseSegmentDuration` and `Durations.DecodedDurationKeepsMicroseconds` hold in Go only for durations within the int64 range.
- Go strings are bytes and Dafny strings are characters. The only byte count the code uses is whether the fraction is empty, which is the same either way.
- `sdp/sdp_test.go` only tests `ReadSession`, which is not part of this model, so nothing from it is modelled.
