/** `parseSegment`: assembles one media segment from the lexer's tokens. The
    token channel is a finite sequence consumed from the front; a successful
    decode hands back the tokens it did not consume. */
module Decoder {
  import opened Results
  import opened Tokens
  import opened Durations
  import opened Segments

  /** Conversions the segment code calls but that are not part of this model:
      the floating-point duration fallback (`ParseFloat(…, 32) * 1e6`,
      truncated to whole microseconds; None is a ParseFloat error) and
      `parseByteRange`. */
  datatype Externals = Externals(
    floatMicros: string -> Option<int>,
    parseByteRange: string -> Result<ByteRange, string>)

  datatype DecodeError =
    | Upstream(message: string)        // an error token; its value is the message
    | BadDuration(cause: DurationError) // "parse segment duration: …"
    | MissingOperand(tagName: string)      // the tokens ended right after a tag that needs an operand
    | ByteRangeOperand(got: Token)     // "parse byte range: got …, want item type string"
    | BadByteRange(reason: string)     // "parse byte range: …"
    | Unsupported(tag: Token)          // "parsing … unsupported"
    | NoUrl                            // "no url"

  /** The tags the loop handles; every other tag is refused. */
  const HandledTags: set<string> := {TagSegmentDuration, TagByteRange, TagDiscontinuity}

  /** What one handled token (with its operand) does to the segment so far. */
  datatype Edit =
    | SetDuration(duration: int)
    | SetRange(range: ByteRange)
    | SetDiscontinuity
    | Keep

  /** The outcome of one iteration of the decoding loop. */
  datatype Step =
    | Edited(edit: Edit, rest: seq<Token>)
    | Finished(uri: string, rest: seq<Token>)
    | Failed(err: DecodeError)
    | Exhausted

  /** `rest` is what is left of `items` after taking some tokens off its front. */
  predicate IsSuffix(rest: seq<Token>, items: seq<Token>) {
    |rest| <= |items| && rest == items[|items| - |rest|..]
  }

  /** A token the loop passes over without failing or finishing: a bare
      string, attribute name or number, or the discontinuity tag. */
  predicate Inert(t: Token) {
    t.kind == Str || t.kind == AttrName || t.kind == Number || IsTag(t, TagDiscontinuity)
  }

  /** No tag token named `name` among `items`. */
  predicate NoTag(items: seq<Token>, name: string) {
    forall i :: 0 <= i < |items| ==> !IsTag(items[i], name)
  }

  /** `it = <-items` then `parseSegmentDuration(it)`. */
  function ReadDuration(items: seq<Token>, ext: Externals): (r: Result<(int, seq<Token>), DecodeError>)
    ensures |items| == 0 <==> r == Failure(MissingOperand(TagSegmentDuration))
    ensures r.Success? ==> r.value.1 == items[1..] && r.value.0 % Microsecond == 0
    ensures r.Success? <==> |items| > 0 && ParseSegmentDuration(items[0], ext.floatMicros).Success?
    ensures r.Success? ==> r.value.0 == ParseSegmentDuration(items[0], ext.floatMicros).value
    ensures r.Failure? && |items| > 0 ==> r.error == BadDuration(ParseSegmentDuration(items[0], ext.floatMicros).error)
  {
    if |items| == 0 then Failure(MissingOperand(TagSegmentDuration))
    else match ParseSegmentDuration(items[0], ext.floatMicros)
      case Failure(e) => Failure(BadDuration(e))
      case Success(d) => Success((d, items[1..]))
  }

  /** `it = <-items`, the string-kind check, then `parseByteRange(it.val)`. */
  function ReadByteRange(items: seq<Token>, ext: Externals): (r: Result<(ByteRange, seq<Token>), DecodeError>)
    ensures |items| == 0 <==> r == Failure(MissingOperand(TagByteRange))
    ensures r.Failure? && r.error.ByteRangeOperand? <==> |items| > 0 && items[0].kind != Str
    ensures r.Success? <==> |items| > 0 && items[0].kind == Str && ext.parseByteRange(items[0].value).Success?
    ensures r.Success? ==> r.value.0 == ext.parseByteRange(items[0].value).value && r.value.1 == items[1..]
    ensures |items| > 0 && items[0].kind != Str ==> r == Failure(ByteRangeOperand(items[0]))
    ensures |items| > 0 && items[0].kind == Str && ext.parseByteRange(items[0].value).Failure? ==>
              r == Failure(BadByteRange(ext.parseByteRange(items[0].value).error))
  {
    if |items| == 0 then Failure(MissingOperand(TagByteRange))
    else if items[0].kind != Str then Failure(ByteRangeOperand(items[0]))
    else match ext.parseByteRange(items[0].value)
      case Failure(e) => Failure(BadByteRange(e))
      case Success(r) => Success((r, items[1..]))
  }

  /** One pass of `for it := range items { … }`: a URL finishes the segment,
      an error token fails with its own text, a handled tag edits the
      segment, any other tag is refused, and any other token is skipped. */
  function NextStep(items: seq<Token>, ext: Externals): (s: Step)
    ensures s.Exhausted? <==> |items| == 0
    ensures s.Finished? <==> |items| > 0 && items[0].kind == Url
    ensures s.Finished? ==> s.uri == items[0].value && s.rest == items[1..]
    ensures |items| > 0 && items[0].kind == Err ==> s == Failed(Upstream(items[0].value))
    ensures s.Failed? && s.err.Unsupported? <==> |items| > 0 && items[0].kind == Tag && items[0].value !in HandledTags
    ensures s.Failed? && s.err.Unsupported? ==> s.err.tag == items[0]
    ensures |items| > 0 && Inert(items[0]) ==> s.Edited? && s.rest == items[1..]
    ensures s.Edited? && s.edit.SetDiscontinuity? <==> |items| > 0 && IsTag(items[0], TagDiscontinuity)
    ensures s.Edited? && s.edit.SetDuration? <==>
              (|items| > 1 && IsTag(items[0], TagSegmentDuration) &&
               ParseSegmentDuration(items[1], ext.floatMicros).Success?)
    ensures s.Edited? && s.edit.SetDuration? ==>
              s.edit.duration == ParseSegmentDuration(items[1], ext.floatMicros).value &&
              s.edit.duration % Microsecond == 0 && s.rest == items[2..]
    ensures s.Edited? && s.edit.SetRange? <==>
              (|items| > 1 && IsTag(items[0], TagByteRange) && items[1].kind == Str &&
               ext.parseByteRange(items[1].value).Success?)
    ensures s.Edited? && s.edit.SetRange? ==>
              s.edit.range == ext.parseByteRange(items[1].value).value && s.rest == items[2..]
    ensures |items| > 0 && IsTag(items[0], TagSegmentDuration) ==>
              (s.Failed? <==> ReadDuration(items[1..], ext).Failure?) &&
              (s.Failed? ==> s.err == ReadDuration(items[1..], ext).error)
    ensures |items| > 0 && IsTag(items[0], TagByteRange) ==>
              (s.Failed? <==> ReadByteRange(items[1..], ext).Failure?) &&
              (s.Failed? ==> s.err == ReadByteRange(items[1..], ext).error)
    ensures s.Edited? ==> |s.rest| < |items| && IsSuffix(s.rest, items)
    ensures s.Edited? ==> forall i :: 0 <= i < |items| - |s.rest| ==> items[i].kind != Url && items[i].kind != Err
  {
    if |items| == 0 then Exhausted
    else
      var it := items[0];
      var rest := items[1..];
      if it.kind == Err then Failed(Upstream(it.value))
      else if it.kind == Url then Finished(it.value, rest)
      else if it.kind == Tag then
        if it.value == TagSegmentDuration then
          match ReadDuration(rest, ext)
          case Failure(e) => Failed(e)
          case Success((d, after)) => Edited(SetDuration(d), after)
        else if it.value == TagByteRange then
          match ReadByteRange(rest, ext)
          case Failure(e) => Failed(e)
          case Success((r, after)) => Edited(SetRange(r), after)
        else if it.value == TagDiscontinuity then Edited(SetDiscontinuity, rest)
        else if it.value == TagKey then Failed(Unsupported(it))
        else Failed(Unsupported(it))
      else Edited(Keep, rest)
  }

  /** The effect of one edit: it touches at most one of duration, range and
      discontinuity, and never the URI or the pass-through fields. */
  function Apply(seg: Segment, e: Edit): (r: Segment)
    ensures r.uri == seg.uri && r.key == seg.key && r.mediaMap == seg.mediaMap
    ensures r.dateRange == seg.dateRange && r.dateTime == seg.dateTime
    ensures r.duration != seg.duration ==> e.SetDuration?
    ensures r.range != seg.range ==> e.SetRange?
    ensures r.discontinuity != seg.discontinuity ==> e.SetDiscontinuity?
    ensures e.SetDuration? ==> r.duration == e.duration
    ensures e.SetRange? ==> r.range == e.range
    ensures e.SetDiscontinuity? ==> r.discontinuity
    ensures e.Keep? ==> r == seg
  {
    match e
    case SetDuration(d) => seg.(duration := d)
    case SetRange(r) => seg.(range := r)
    case SetDiscontinuity => seg.(discontinuity := true)
    case Keep => seg
  }

  /** Edits applied in the order they were read. */
  function ApplyAll(seg: Segment, edits: seq<Edit>): Segment
    decreases |edits|
  {
    if |edits| == 0 then seg else ApplyAll(Apply(seg, edits[0]), edits[1..])
  }

  /** The loop of `parseSegment` from segment `seg` on: it stops at the first
      URL, which becomes the URI, and hands back the tokens after it. */
  function Accumulate(items: seq<Token>, seg: Segment, ext: Externals): (r: Result<(Segment, seq<Token>), DecodeError>)
    ensures r.Success? ==> |r.value.1| < |items| && IsSuffix(r.value.1, items)
    ensures r.Success? ==> items[|items| - |r.value.1| - 1] == Token(Url, r.value.0.uri)
    ensures r.Success? ==> (r.value.0.key == seg.key && r.value.0.mediaMap == seg.mediaMap &&
                            r.value.0.dateRange == seg.dateRange && r.value.0.dateTime == seg.dateTime)
    ensures r.Success? && seg.discontinuity ==> r.value.0.discontinuity
    ensures r.Success? && seg.duration % Microsecond == 0 ==> r.value.0.duration % Microsecond == 0
    ensures r.Success? && NoTag(items, TagSegmentDuration) ==> r.value.0.duration == seg.duration
    ensures r.Success? && NoTag(items, TagByteRange) ==> r.value.0.range == seg.range
    ensures r.Success? ==> forall i :: 0 <= i < |items| - |r.value.1| - 1 ==> items[i].kind != Url && items[i].kind != Err
    decreases |items|
  {
    match NextStep(items, ext)
    case Exhausted => Failure(NoUrl)
    case Failed(e) => Failure(e)
    case Finished(u, rest) => Success((seg.(uri := u), rest))
    case Edited(e, rest) => Accumulate(rest, Apply(seg, e), ext)
  }

  /** `parseSegment(items, leading)`: only a leading `#EXTINF` has an effect
      (it reads the next token as the duration); then the loop runs from the
      zero segment. A decoded segment never carries a key, map, date range or
      program date-time. */
  function ParseSegment(items: seq<Token>, leading: Token, ext: Externals): (r: Result<(Segment, seq<Token>), DecodeError>)
    ensures r.Success? ==> |r.value.1| < |items| && IsSuffix(r.value.1, items)
    ensures r.Success? ==> items[|items| - |r.value.1| - 1] == Token(Url, r.value.0.uri)
    ensures r.Success? ==> (r.value.0.key.None? && r.value.0.mediaMap.None? &&
                            r.value.0.dateRange.None? && r.value.0.dateTime.IsZero())
    ensures (forall i :: 0 <= i < |items| ==> items[i].kind != Url) ==> r.Failure?
    ensures r.Success? ==> r.value.0.duration % Microsecond == 0
    ensures r.Success? && !IsTag(leading, TagSegmentDuration) && NoTag(items, TagSegmentDuration) ==> r.value.0.duration == 0
    ensures r.Success? && NoTag(items, TagByteRange) ==> r.value.0.range == NoRange
    ensures r.Success? ==> forall i :: 0 <= i < |items| - |r.value.1| - 1 ==> items[i].kind != Url && items[i].kind != Err
    ensures IsTag(leading, TagSegmentDuration) && |items| == 0 ==> r == Failure(MissingOperand(TagSegmentDuration))
    ensures IsTag(leading, TagSegmentDuration) && ReadDuration(items, ext).Failure? ==> r == Failure(ReadDuration(items, ext).error)
  {
    if IsTag(leading, TagSegmentDuration) then
      match ReadDuration(items, ext)
      case Failure(e) => Failure(e)
      case Success((d, rest)) =>
        var r := Accumulate(rest, EmptySegment.(duration := d), ext);
        if r.Failure? then r
        else
          AfterOperand(items, r.value.1);
          r
    else
      Accumulate(items, EmptySegment, ext)
  }

  /** What the loop's contract says about the tokens after a leading
      `#EXTINF`'s operand carries over to the whole stream. */
  lemma AfterOperand(items: seq<Token>, r: seq<Token>)
    requires |items| > 0 && items[0].kind != Url && items[0].kind != Err
    requires |r| < |items| - 1 && IsSuffix(r, items[1..])
    requires forall i :: 0 <= i < |items| - 1 - |r| - 1 ==> items[1..][i].kind != Url && items[1..][i].kind != Err
    ensures IsSuffix(r, items) && items[|items| - |r| - 1] == items[1..][|items| - 1 - |r| - 1]
    ensures forall i :: 0 <= i < |items| - |r| - 1 ==> items[i].kind != Url && items[i].kind != Err
    ensures forall name :: NoTag(items, name) ==> NoTag(items[1..], name)
  {
    assert forall i :: 0 < i < |items| - |r| - 1 ==> items[i] == items[1..][i - 1];
  }

  /** Reference reading of the loop: first the list of edits up to the URL,
      then their application (see AccumulateIsCollectThenApply). */
  function Collect(items: seq<Token>, ext: Externals): Result<(seq<Edit>, string, seq<Token>), DecodeError>
    decreases |items|
  {
    match NextStep(items, ext)
    case Exhausted => Failure(NoUrl)
    case Failed(e) => Failure(e)
    case Finished(u, rest) => Success(([], u, rest))
    case Edited(e, rest) =>
      match Collect(rest, ext)
      case Failure(err) => Failure(err)
      case Success((edits, u, after)) => Success(([e] + edits, u, after))
  }

  /** The loop is the application, in order, of the edits read before the URL. */
  lemma {:induction false} AccumulateIsCollectThenApply(items: seq<Token>, seg: Segment, ext: Externals)
    ensures Accumulate(items, seg, ext) ==
      match Collect(items, ext)
      case Failure(err) => Failure(err)
      case Success((edits, u, rest)) => Success((ApplyAll(seg, edits).(uri := u), rest))
    decreases |items|
  {
    match NextStep(items, ext)
    case Exhausted =>
    case Failed(e) =>
    case Finished(u, rest) =>
    case Edited(e, rest) =>
      AccumulateIsCollectThenApply(rest, Apply(seg, e), ext);
      match Collect(rest, ext)
      case Failure(err) =>
      case Success((edits, u, after)) =>
        assert ([e] + edits)[1..] == edits;
  }

  lemma {:induction false} ApplyAllAppend(seg: Segment, a: seq<Edit>, b: seq<Edit>)
    ensures ApplyAll(seg, a + b) == ApplyAll(ApplyAll(seg, a), b)
    decreases |a|
  {
    if |a| > 0 {
      assert (a + b)[1..] == a[1..] + b;
      ApplyAllAppend(Apply(seg, a[0]), a[1..], b);
    } else {
      assert a + b == b;
    }
  }

  /** Edits other than SetDuration leave the duration alone. */
  lemma {:induction false} DurationKeptWithoutDurationEdit(seg: Segment, edits: seq<Edit>)
    requires forall i :: 0 <= i < |edits| ==> !edits[i].SetDuration?
    ensures ApplyAll(seg, edits).duration == seg.duration
    decreases |edits|
  {
    if |edits| > 0 {
      DurationKeptWithoutDurationEdit(Apply(seg, edits[0]), edits[1..]);
    }
  }

  /** Last value wins: the duration is the one of the last SetDuration edit. */
  lemma LastDurationWins(seg: Segment, before: seq<Edit>, d: int, after: seq<Edit>)
    requires forall i :: 0 <= i < |after| ==> !after[i].SetDuration?
    ensures ApplyAll(seg, before + [SetDuration(d)] + after).duration == d
  {
    ApplyAllAppend(seg, before + [SetDuration(d)], after);
    ApplyAllAppend(seg, before, [SetDuration(d)]);
    DurationKeptWithoutDurationEdit(ApplyAll(seg, before + [SetDuration(d)]), after);
  }

  /** The flag is set exactly when it was already set or a discontinuity edit
      was applied; nothing clears it. */
  lemma {:induction false} DiscontinuityIffMarked(seg: Segment, edits: seq<Edit>)
    ensures ApplyAll(seg, edits).discontinuity <==> seg.discontinuity || SetDiscontinuity in edits
    decreases |edits|
  {
    if |edits| > 0 {
      DiscontinuityIffMarked(Apply(seg, edits[0]), edits[1..]);
      assert edits == [edits[0]] + edits[1..];
    }
  }

  /** Edits other than SetRange leave the byte range alone. */
  lemma {:induction false} RangeKeptWithoutRangeEdit(seg: Segment, edits: seq<Edit>)
    requires forall i :: 0 <= i < |edits| ==> !edits[i].SetRange?
    ensures ApplyAll(seg, edits).range == seg.range
    decreases |edits|
  {
    if |edits| > 0 {
      RangeKeptWithoutRangeEdit(Apply(seg, edits[0]), edits[1..]);
    }
  }

  /** Last value wins: the byte range is the one of the last SetRange edit. */
  lemma LastRangeWins(seg: Segment, before: seq<Edit>, r: ByteRange, after: seq<Edit>)
    requires forall i :: 0 <= i < |after| ==> !after[i].SetRange?
    ensures ApplyAll(seg, before + [SetRange(r)] + after).range == r
  {
    ApplyAllAppend(seg, before + [SetRange(r)], after);
    ApplyAllAppend(seg, before, [SetRange(r)]);
    RangeKeptWithoutRangeEdit(ApplyAll(seg, before + [SetRange(r)]), after);
  }

  /** The edits the loop reads while it walks through all of `pre` without
      finishing, failing or running out of tokens; None when it cannot, for
      instance when a tag's operand lies beyond `pre`. */
  function Walk(pre: seq<Token>, ext: Externals): Option<seq<Edit>>
    decreases |pre|
  {
    if |pre| == 0 then Some([])
    else match NextStep(pre, ext)
      case Edited(e, rest) =>
        (match Walk(rest, ext)
         case None => None
         case Some(es) => Some([e] + es))
      case _ => None
  }

  /** A step that edits within `pre` does the same whatever follows `pre`. */
  lemma StepExtends(pre: seq<Token>, rest: seq<Token>, ext: Externals)
    requires NextStep(pre, ext).Edited?
    ensures NextStep(pre + rest, ext) == Edited(NextStep(pre, ext).edit, NextStep(pre, ext).rest + rest)
  {
    var items := pre + rest;
    assert items[0] == pre[0] && items[1..] == pre[1..] + rest;
    if |pre| > 1 {
      assert items[1] == pre[1] && items[2..] == pre[2..] + rest;
    }
  }

  /** Decoding goes through a walked prefix by applying the prefix's edits,
      then carries on with what follows. */
  lemma {:induction false} WalkedPrefix(pre: seq<Token>, rest: seq<Token>, seg: Segment, ext: Externals)
    requires Walk(pre, ext).Some?
    ensures Accumulate(pre + rest, seg, ext) == Accumulate(rest, ApplyAll(seg, Walk(pre, ext).value), ext)
    decreases |pre|
  {
    if |pre| == 0 {
      assert pre + rest == rest;
    } else {
      var st := NextStep(pre, ext);
      StepExtends(pre, rest, ext);
      var es := Walk(st.rest, ext).value;
      WalkedPrefix(st.rest, rest, Apply(seg, st.edit), ext);
      assert ([st.edit] + es)[1..] == es;
    }
  }

  /** Decoding stops at the URL: the tokens after it (the next segments) do
      not change the segment, and are handed back untouched. */
  lemma {:induction false} AccumulateIgnoresAfter(items: seq<Token>, more: seq<Token>, seg: Segment, ext: Externals)
    requires Accumulate(items, seg, ext).Success?
    ensures Accumulate(items + more, seg, ext) ==
      Success((Accumulate(items, seg, ext).value.0, Accumulate(items, seg, ext).value.1 + more))
    decreases |items|
  {
    var st := NextStep(items, ext);
    if st.Edited? {
      StepExtends(items, more, ext);
      AccumulateIgnoresAfter(st.rest, more, Apply(seg, st.edit), ext);
    } else {
      assert st.Finished?;
      assert (items + more)[0] == items[0] && (items + more)[1..] == items[1..] + more;
    }
  }

  /** The same for a whole `parseSegment` call. */
  lemma ParseSegmentIgnoresAfter(items: seq<Token>, more: seq<Token>, leading: Token, ext: Externals)
    requires ParseSegment(items, leading, ext).Success?
    ensures ParseSegment(items + more, leading, ext) ==
      Success((ParseSegment(items, leading, ext).value.0, ParseSegment(items, leading, ext).value.1 + more))
  {
    if IsTag(leading, TagSegmentDuration) {
      var d := ReadDuration(items, ext).value.0;
      assert (items + more)[0] == items[0] && (items + more)[1..] == items[1..] + more;
      AccumulateIgnoresAfter(items[1..], more, EmptySegment.(duration := d), ext);
    } else {
      AccumulateIgnoresAfter(items, more, EmptySegment, ext);
    }
  }

  /** A run of inert tokens can always be walked through. */
  lemma {:induction false} InertPrefixWalks(pre: seq<Token>, ext: Externals)
    requires forall i :: 0 <= i < |pre| ==> Inert(pre[i])
    ensures Walk(pre, ext).Some? && |Walk(pre, ext).value| == |pre|
    decreases |pre|
  {
    if |pre| > 0 {
      InertPrefixWalks(pre[1..], ext);
    }
  }

  /** The decoded duration is the parse of the operand of the last `#EXTINF`
      the loop meets before the URL; that operand must parse. The segment's
      own tokens are `pre`, the tag, its operand and `post` (which holds the
      URL); `more` is whatever follows, later segments included. */
  lemma {:induction false} DecodedDurationIsLast(pre: seq<Token>, op: Token, post: seq<Token>, more: seq<Token>,
                                                 seg: Segment, ext: Externals)
    requires Walk(pre, ext).Some? && NoTag(post, TagSegmentDuration)
    requires Accumulate(pre + ([Token(Tag, TagSegmentDuration), op] + post), seg, ext).Success?
    ensures ParseSegmentDuration(op, ext.floatMicros).Success?
    ensures Accumulate(pre + ([Token(Tag, TagSegmentDuration), op] + post) + more, seg, ext).Success?
    ensures Accumulate(pre + ([Token(Tag, TagSegmentDuration), op] + post) + more, seg, ext).value.0.duration
         == ParseSegmentDuration(op, ext.floatMicros).value
  {
    DurationOfWalkedStream(pre, op, post, seg, ext);
    AccumulateIgnoresAfter(pre + ([Token(Tag, TagSegmentDuration), op] + post), more, seg, ext);
  }

  /** `pre`, then `#EXTINF` and its operand, then no further `#EXTINF`. */
  lemma {:induction false} DurationOfWalkedStream(pre: seq<Token>, op: Token, post: seq<Token>, seg: Segment, ext: Externals)
    requires Walk(pre, ext).Some? && NoTag(post, TagSegmentDuration)
    requires Accumulate(pre + ([Token(Tag, TagSegmentDuration), op] + post), seg, ext).Success?
    ensures ParseSegmentDuration(op, ext.floatMicros).Success?
    ensures Accumulate(pre + ([Token(Tag, TagSegmentDuration), op] + post), seg, ext).value.0.duration
         == ParseSegmentDuration(op, ext.floatMicros).value
  {
    WalkedPrefix(pre, [Token(Tag, TagSegmentDuration), op] + post, seg, ext);
    DurationTagThen(op, post, ApplyAll(seg, Walk(pre, ext).value), ext);
  }

  /** `#EXTINF` and its operand, then no further `#EXTINF`. */
  lemma DurationTagThen(op: Token, post: seq<Token>, seg: Segment, ext: Externals)
    requires NoTag(post, TagSegmentDuration)
    requires Accumulate([Token(Tag, TagSegmentDuration), op] + post, seg, ext).Success?
    ensures ParseSegmentDuration(op, ext.floatMicros).Success?
    ensures Accumulate([Token(Tag, TagSegmentDuration), op] + post, seg, ext).value.0.duration
         == ParseSegmentDuration(op, ext.floatMicros).value
  {
    var items := [Token(Tag, TagSegmentDuration), op] + post;
    assert items[0] == Token(Tag, TagSegmentDuration) && items[1] == op && items[2..] == post;
    var st := NextStep(items, ext);
    assert st.Edited? && st.edit.SetDuration?;
    assert Accumulate(items, seg, ext) == Accumulate(post, Apply(seg, st.edit), ext);
  }

  /** The decoded byte range is `parseByteRange` of the operand of the last
      `#EXT-X-BYTERANGE` the loop meets before the URL; that operand must be
      a string that parses. As for the duration, `post` holds the URL and
      `more` is whatever follows. */
  lemma {:induction false} DecodedRangeIsLast(pre: seq<Token>, op: Token, post: seq<Token>, more: seq<Token>,
                                              seg: Segment, ext: Externals)
    requires Walk(pre, ext).Some? && NoTag(post, TagByteRange)
    requires Accumulate(pre + ([Token(Tag, TagByteRange), op] + post), seg, ext).Success?
    ensures op.kind == Str && ext.parseByteRange(op.value).Success?
    ensures Accumulate(pre + ([Token(Tag, TagByteRange), op] + post) + more, seg, ext).Success?
    ensures Accumulate(pre + ([Token(Tag, TagByteRange), op] + post) + more, seg, ext).value.0.range
         == ext.parseByteRange(op.value).value
  {
    RangeOfWalkedStream(pre, op, post, seg, ext);
    AccumulateIgnoresAfter(pre + ([Token(Tag, TagByteRange), op] + post), more, seg, ext);
  }

  /** `pre`, then `#EXT-X-BYTERANGE` and its operand, then no further byte-range tag. */
  lemma {:induction false} RangeOfWalkedStream(pre: seq<Token>, op: Token, post: seq<Token>, seg: Segment, ext: Externals)
    requires Walk(pre, ext).Some? && NoTag(post, TagByteRange)
    requires Accumulate(pre + ([Token(Tag, TagByteRange), op] + post), seg, ext).Success?
    ensures op.kind == Str && ext.parseByteRange(op.value).Success?
    ensures Accumulate(pre + ([Token(Tag, TagByteRange), op] + post), seg, ext).value.0.range
         == ext.parseByteRange(op.value).value
  {
    WalkedPrefix(pre, [Token(Tag, TagByteRange), op] + post, seg, ext);
    RangeTagThen(op, post, ApplyAll(seg, Walk(pre, ext).value), ext);
  }

  /** `#EXT-X-BYTERANGE` and its operand, then no further byte-range tag. */
  lemma RangeTagThen(op: Token, post: seq<Token>, seg: Segment, ext: Externals)
    requires NoTag(post, TagByteRange)
    requires Accumulate([Token(Tag, TagByteRange), op] + post, seg, ext).Success?
    ensures op.kind == Str && ext.parseByteRange(op.value).Success?
    ensures Accumulate([Token(Tag, TagByteRange), op] + post, seg, ext).value.0.range
         == ext.parseByteRange(op.value).value
  {
    var items := [Token(Tag, TagByteRange), op] + post;
    assert items[0] == Token(Tag, TagByteRange) && items[1] == op && items[2..] == post;
    var st := NextStep(items, ext);
    assert st.Edited? && st.edit.SetRange?;
    assert Accumulate(items, seg, ext) == Accumulate(post, Apply(seg, st.edit), ext);
  }

  /** A run of inert tokens only marks discontinuities; decoding resumes after it. */
  lemma {:induction false} InertPrefixOnlyMarks(pre: seq<Token>, rest: seq<Token>, seg: Segment, ext: Externals)
    requires forall i :: 0 <= i < |pre| ==> Inert(pre[i])
    ensures Accumulate(pre + rest, seg, ext) ==
      Accumulate(rest, seg.(discontinuity := seg.discontinuity || exists i :: 0 <= i < |pre| && IsTag(pre[i], TagDiscontinuity)), ext)
    decreases |pre|
  {
    if |pre| > 0 {
      var items := pre + rest;
      assert items[0] == pre[0];
      assert items[1..] == pre[1..] + rest;
      var next := seg.(discontinuity := seg.discontinuity || IsTag(pre[0], TagDiscontinuity));
      InertStep(items, seg, ext);
      InertPrefixOnlyMarks(pre[1..], rest, next, ext);
      MarkedInTail(pre);
    } else {
      assert pre + rest == rest;
    }
  }

  /** One inert token only marks a discontinuity, and decoding goes on. */
  lemma InertStep(items: seq<Token>, seg: Segment, ext: Externals)
    requires |items| > 0 && Inert(items[0])
    ensures Accumulate(items, seg, ext) ==
      Accumulate(items[1..], seg.(discontinuity := seg.discontinuity || IsTag(items[0], TagDiscontinuity)), ext)
  {
  }

  /** Some token of `pre` is a discontinuity tag: its head, or one of the rest. */
  lemma MarkedInTail(pre: seq<Token>)
    requires |pre| > 0
    ensures (exists i :: 0 <= i < |pre| && IsTag(pre[i], TagDiscontinuity)) <==>
      IsTag(pre[0], TagDiscontinuity) || exists i :: 0 <= i < |pre[1..]| && IsTag(pre[1..][i], TagDiscontinuity)
  {
    if i :| 0 <= i < |pre| && IsTag(pre[i], TagDiscontinuity) {
      if i > 0 {
        assert pre[1..][i - 1] == pre[i];
      }
    }
    if i :| 0 <= i < |pre[1..]| && IsTag(pre[1..][i], TagDiscontinuity) {
      assert pre[i + 1] == pre[1..][i];
    }
  }

  /** An error token the loop reaches, after any prefix it walks through,
      fails the segment with exactly that token's text, whatever follows. */
  lemma ErrorBeforeUrlFails(pre: seq<Token>, message: string, post: seq<Token>, seg: Segment, ext: Externals)
    requires Walk(pre, ext).Some?
    ensures Accumulate(pre + [Token(Err, message)] + post, seg, ext) == Failure(Upstream(message))
  {
    assert pre + [Token(Err, message)] + post == pre + ([Token(Err, message)] + post);
    WalkedPrefix(pre, [Token(Err, message)] + post, seg, ext);
  }

  /** A tag outside the handled list (the key, map, gap, bitrate, part, …
      tags) that the loop reaches fails as unsupported. */
  lemma UnhandledTagFails(pre: seq<Token>, tag: Token, post: seq<Token>, seg: Segment, ext: Externals)
    requires Walk(pre, ext).Some?
    requires tag.kind == Tag && tag.value !in HandledTags
    ensures Accumulate(pre + [tag] + post, seg, ext) == Failure(Unsupported(tag))
  {
    assert pre + [tag] + post == pre + ([tag] + post);
    WalkedPrefix(pre, [tag] + post, seg, ext);
  }

  /** Walking through every token without meeting a URL fails with "no url". */
  lemma RunningOutFailsNoUrl(items: seq<Token>, seg: Segment, ext: Externals)
    requires Walk(items, ext).Some?
    ensures Accumulate(items, seg, ext) == Failure(NoUrl)
  {
    assert items + [] == items;
    WalkedPrefix(items, [], seg, ext);
  }

  /** An `#EXTINF` with its operand and then nothing: the loop walks
      through both tokens and ends with "no url". */
  lemma DurationThenNothingGivesNoUrl(seg: Segment, ext: Externals)
    ensures Accumulate([Token(Tag, TagSegmentDuration), Token(Number, "10")], seg, ext) == Failure(NoUrl)
  {
    var items := [Token(Tag, TagSegmentDuration), Token(Number, "10")];
    Numbers.AtoiOfItoa(10);
    assert Numbers.Itoa(10) == "10";
    assert items[1..] == [Token(Number, "10")] && items[2..] == [];
    assert NextStep(items, ext) == Edited(SetDuration(10 * Second), []);
    assert [SetDuration(10 * Second)] + [] == [SetDuration(10 * Second)];
    assert Walk(items, ext) == Some([SetDuration(10 * Second)]);
    RunningOutFailsNoUrl(items, seg, ext);
  }

  /** A byte range with a good operand, then an error token: the error
      token's text is the failure. */
  lemma RangeThenErrorFails(operand: string, message: string, post: seq<Token>, seg: Segment, ext: Externals)
    requires ext.parseByteRange(operand).Success?
    ensures Accumulate([Token(Tag, TagByteRange), Token(Str, operand), Token(Err, message)] + post, seg, ext)
         == Failure(Upstream(message))
  {
    var pre := [Token(Tag, TagByteRange), Token(Str, operand)];
    assert pre[1..] == [Token(Str, operand)] && pre[2..] == [];
    var e := SetRange(ext.parseByteRange(operand).value);
    assert NextStep(pre, ext) == Edited(e, []);
    assert [e] + [] == [e];
    assert Walk(pre, ext) == Some([e]);
    assert [Token(Tag, TagByteRange), Token(Str, operand), Token(Err, message)] == pre + [Token(Err, message)];
    ErrorBeforeUrlFails(pre, message, post, seg, ext);
  }

  /** Two segments on one stream, `#EXTINF 10, a.ts, #EXTINF 5, b.ts`: the
      first call decodes ten seconds and `a.ts`, and hands back the second
      segment's tokens untouched. */
  lemma FirstOfTwoSegments(ext: Externals)
    ensures ParseSegment([Token(Number, "10"), Token(Url, "a.ts"), Token(Tag, TagSegmentDuration),
                          Token(Number, "5"), Token(Url, "b.ts")], Token(Tag, TagSegmentDuration), ext)
         == Success((EmptySegment.(duration := 10 * Second, uri := "a.ts"),
                     [Token(Tag, TagSegmentDuration), Token(Number, "5"), Token(Url, "b.ts")]))
  {
    var first := [Token(Number, "10"), Token(Url, "a.ts")];
    var second := [Token(Tag, TagSegmentDuration), Token(Number, "5"), Token(Url, "b.ts")];
    TenSecondSegment(ext);
    ParseSegmentIgnoresAfter(first, second, Token(Tag, TagSegmentDuration), ext);
    assert first + second == [Token(Number, "10"), Token(Url, "a.ts"), Token(Tag, TagSegmentDuration),
                              Token(Number, "5"), Token(Url, "b.ts")];
    assert [] + second == second;
  }

  /** The other media segment tags of RFC 8216 are refused where the loop
      meets them. */
  lemma OtherSegmentTagsRefused(name: string, post: seq<Token>, seg: Segment, ext: Externals)
    requires name in {TagKey, TagMap, TagDateTime, TagGap, TagBitrate, TagPart, TagDateRange}
    ensures Accumulate([Token(Tag, name)] + post, seg, ext) == Failure(Unsupported(Token(Tag, name)))
  {
    assert [] + [Token(Tag, name)] + post == [Token(Tag, name)] + post;
    UnhandledTagFails([], Token(Tag, name), post, seg, ext);
  }

  /** A leading `#EXTINF` behaves exactly like one met inside the loop. */
  lemma LeadingDurationIsLoopDuration(items: seq<Token>, leading: Token, ext: Externals)
    requires IsTag(leading, TagSegmentDuration)
    ensures ParseSegment(items, leading, ext) == Accumulate([leading] + items, EmptySegment, ext)
  {
    assert ([leading] + items)[0] == leading && ([leading] + items)[1..] == items;
  }

  /** Any other leading token is ignored, even a tag the loop would act on. */
  lemma OtherLeadingIgnored(items: seq<Token>, leading: Token, ext: Externals)
    requires !IsTag(leading, TagSegmentDuration)
    ensures ParseSegment(items, leading, ext) == Accumulate(items, EmptySegment, ext)
  {
  }

  /** `#EXTINF`, `10`, then the URL `a.ts` decodes to a ten-second segment
      with that URI and consumes every token. */
  lemma TenSecondSegment(ext: Externals)
    ensures ParseSegment([Token(Number, "10"), Token(Url, "a.ts")], Token(Tag, TagSegmentDuration), ext)
         == Success((EmptySegment.(duration := 10 * Second, uri := "a.ts"), []))
  {
    Numbers.AtoiOfItoa(10);
    assert Numbers.Itoa(10) == "10";
  }
}
