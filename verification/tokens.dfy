/** The typed tokens the playlist lexer hands to the segment decoder, and the
    media segment tag names of section 4.4.4 of RFC 8216. */
module Tokens {

  /** The token kinds the segment code inspects. */
  datatype Kind =
    | Err       // the lexer's error token; its value is the message
    | Url       // a URI line
    | Tag       // a `#EXT…` tag name
    | Str       // a bare string operand
    | AttrName  // an attribute name (the lexer may classify an integer this way)
    | Number    // a numeric literal

  datatype Token = Token(kind: Kind, value: string)

  const TagSegmentDuration := "#EXTINF"
  const TagByteRange := "#EXT-X-BYTERANGE"
  const TagDiscontinuity := "#EXT-X-DISCONTINUITY"
  const TagKey := "#EXT-X-KEY"
  const TagMap := "#EXT-X-MAP"
  const TagDateTime := "#EXT-X-PROGRAM-DATE-TIME"
  const TagGap := "#EXT-X-GAP"
  const TagBitrate := "#EXT-X-BITRATE"
  const TagPart := "#EXT-X-PART"
  const TagDateRange := "#EXT-X-DATERANGE"

  /** True when `t` is the tag token `name`. */
  predicate IsTag(t: Token, name: string) {
    t.kind == Tag && t.value == name
  }
}
