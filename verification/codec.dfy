/** How the two directions meet: what the writer does with a segment the
    decoder built. */
module Codec {
  import opened Results
  import opened Tokens
  import opened Durations
  import opened Segments
  import opened Decoder
  import opened Encoder

  /** A decoded segment with a URI and a non-zero duration is written back
      as at most four lines: the discontinuity tag, the byte range, the
      `#EXTINF` line carrying the exact microsecond count that was decoded,
      and the URI. */
  lemma DecodedSegmentRewrites(items: seq<Token>, leading: Token, ext: Externals, f: Formatters)
    requires ParseSegment(items, leading, ext).Success?
    requires ParseSegment(items, leading, ext).value.0.uri != ""
    requires ParseSegment(items, leading, ext).value.0.duration != 0
    ensures var seg := ParseSegment(items, leading, ext).value.0;
      && WriteSegment(seg, f).err.None?
      && InMicroseconds(seg.duration) * Microsecond == seg.duration
      && Texts(WriteSegment(seg, f).lines) ==
           (if seg.discontinuity then [TagDiscontinuity] else [])
           + (if seg.range != NoRange then [TagByteRange + ":" + f.byteRange(seg.range)] else [])
           + [TagSegmentDuration + ":" + f.seconds(InMicroseconds(seg.duration)), seg.uri]
  {
    var seg := ParseSegment(items, leading, ext).value.0;
    UndatedSegmentTexts(seg, f);
  }

  /** Without any `#EXTINF` among the segment's own tokens `items` (which
      hold its URL) the decoded duration stays zero, whatever later segments
      `more` hold, so the writer refuses the segment (after checking its URI). */
  lemma SegmentWithoutDurationTagIsRejected(items: seq<Token>, more: seq<Token>, leading: Token, ext: Externals, f: Formatters)
    requires !IsTag(leading, TagSegmentDuration) && NoTag(items, TagSegmentDuration)
    requires ParseSegment(items, leading, ext).Success?
    ensures ParseSegment(items + more, leading, ext).Success?
    ensures var seg := ParseSegment(items + more, leading, ext).value.0;
      WriteSegment(seg, f) == Emission([], Some(if seg.uri == "" then EmptyUri else ZeroDuration))
  {
    ParseSegmentIgnoresAfter(items, more, leading, ext);
  }
}
