/** `writeSegments`: checks each segment, then writes its lines in a fixed
    order, leaving out the lines of fields at their default values. The
    writer is modelled as the sequence of lines written so far. */
module Encoder {
  import opened Results
  import opened Tokens
  import opened Durations
  import opened Segments

  /** Formatting the segment code delegates and that is not part of this
      model: `writeDateRange` (its lines, or its error), the `%s` text of a
      byte range and of a key, the lines of `writeMap`, `Format(RFC3339Milli)`,
      and the `%.03f` text of `float32(us)/1e6` for a microsecond count. */
  datatype Formatters = Formatters(
    dateRange: DateRange -> Result<seq<string>, string>,
    byteRange: ByteRange -> string,
    key: Key -> string,
    mediaMap: MediaMap -> seq<string>,
    dateTime: Time -> string,
    seconds: int -> string)

  datatype WriteError =
    | EmptyUri                   // "empty URI"
    | ZeroDuration               // "zero duration"
    | DateRangeFailed(reason: string) // "write date range: …"

  /** Which field a written line renders. */
  datatype LineKind =
    | DiscontinuityLine
    | DateRangeLine
    | ByteRangeLine
    | KeyLine
    | MapLine
    | DateTimeLine
    | DurationLine
    | UriLine

  datatype Line = Line(kind: LineKind, text: string)

  /** The position of each kind of line within a segment's output. */
  function Rank(k: LineKind): nat {
    match k
    case DiscontinuityLine => 0
    case DateRangeLine => 1
    case ByteRangeLine => 2
    case KeyLine => 3
    case MapLine => 4
    case DateTimeLine => 5
    case DurationLine => 6
    case UriLine => 7
  }

  /** Kinds whose helper may write several lines. */
  predicate MultiLine(k: LineKind) {
    k == DateRangeLine || k == MapLine
  }

  /** `a` may be written before `b`: strictly earlier in the order, or the
      same multi-line kind. */
  predicate Precedes(a: LineKind, b: LineKind) {
    Rank(a) < Rank(b) || (a == b && MultiLine(a))
  }

  /** The lines follow the fixed order, and each single-line kind appears
      at most once. */
  predicate InOrder(lines: seq<Line>) {
    forall i, j :: 0 <= i < j < |lines| ==> Precedes(lines[i].kind, lines[j].kind)
  }

  predicate RanksBelow(lines: seq<Line>, r: nat) {
    forall i :: 0 <= i < |lines| ==> Rank(lines[i].kind) < r
  }

  function Texts(lines: seq<Line>): (texts: seq<string>)
    ensures |texts| == |lines|
    ensures forall i :: 0 <= i < |lines| ==> texts[i] == lines[i].text
  {
    seq(|lines|, i requires 0 <= i < |lines| => lines[i].text)
  }

  /** Lines of one kind with the given texts. */
  function Section(k: LineKind, texts: seq<string>): (b: seq<Line>)
    ensures |b| == |texts|
    ensures forall i :: 0 <= i < |b| ==> b[i] == Line(k, texts[i])
  {
    seq(|texts|, i requires 0 <= i < |texts| => Line(k, texts[i]))
  }

  /** One line of kind `k` when `present`, none otherwise. */
  function Optional(present: bool, k: LineKind, text: string): (b: seq<Line>)
    ensures |b| <= 1
    ensures forall i :: 0 <= i < |b| ==> b[i] == Line(k, text)
  {
    if present then [Line(k, text)] else []
  }

  /** The checks at the top of each iteration, empty URI first. */
  function Validate(seg: Segment): (r: Option<WriteError>)
    ensures r.None? <==> seg.uri != "" && seg.duration != 0
    ensures seg.uri == "" ==> r == Some(EmptyUri)
    ensures r == Some(ZeroDuration) <==> seg.uri != "" && seg.duration == 0
  {
    if seg.uri == "" then Some(EmptyUri)
    else if seg.duration == 0 then Some(ZeroDuration)
    else None
  }

  /** The `#EXTINF` line: the text of the truncated microsecond count. */
  function DurationText(seg: Segment, f: Formatters): string {
    TagSegmentDuration + ":" + f.seconds(InMicroseconds(seg.duration))
  }

  function ByteRangeText(seg: Segment, f: Formatters): string {
    TagByteRange + ":" + f.byteRange(seg.range)
  }

  function KeyText(key: Key, f: Formatters): string {
    TagKey + ":" + f.key(key)
  }

  function DateTimeText(seg: Segment, f: Formatters): string {
    TagDateTime + ":" + f.dateTime(seg.dateTime)
  }

  /** What `writeDateRange` produces for the segment: nothing when the
      segment has no date range. */
  function DateRangeTexts(seg: Segment, f: Formatters): Result<seq<string>, string> {
    if seg.dateRange.None? then Success([]) else f.dateRange(seg.dateRange.value)
  }

  function MapTexts(seg: Segment, f: Formatters): seq<string> {
    if seg.mediaMap.None? then [] else f.mediaMap(seg.mediaMap.value)
  }

  function DiscontinuityLines(seg: Segment): seq<Line> {
    Optional(seg.discontinuity, DiscontinuityLine, TagDiscontinuity)
  }

  function ByteRangeLines(seg: Segment, f: Formatters): seq<Line> {
    Optional(seg.range != NoRange, ByteRangeLine, ByteRangeText(seg, f))
  }

  function KeyLines(seg: Segment, f: Formatters): seq<Line> {
    if seg.key.Some? then [Line(KeyLine, KeyText(seg.key.value, f))] else []
  }

  function MapLines(seg: Segment, f: Formatters): seq<Line> {
    Section(MapLine, MapTexts(seg, f))
  }

  function DateTimeLines(seg: Segment, f: Formatters): seq<Line> {
    Optional(!seg.dateTime.IsZero(), DateTimeLine, DateTimeText(seg, f))
  }

  function ClosingLines(seg: Segment, f: Formatters): seq<Line> {
    [Line(DurationLine, DurationText(seg, f)), Line(UriLine, seg.uri)]
  }

  /** The lines after the date range: byte range, key, map, program
      date-time, duration, URI. */
  function Tail(seg: Segment, f: Formatters): seq<Line> {
    ByteRangeLines(seg, f) + (KeyLines(seg, f) + (MapLines(seg, f) + (DateTimeLines(seg, f) + ClosingLines(seg, f))))
  }

  /** What one iteration of `writeSegments` writes, and the error that ends
      the call, if any. */
  datatype Emission = Emission(lines: seq<Line>, err: Option<WriteError>)

  /** One iteration for `seg`: a segment that fails validation writes
      nothing, and the date range helper is the only other way to fail. */
  function WriteSegment(seg: Segment, f: Formatters): (e: Emission)
    ensures Validate(seg).Some? ==> e == Emission([], Validate(seg))
    ensures e.err.None? <==> Validate(seg).None? && DateRangeTexts(seg, f).Success?
    ensures e.err.Some? && Validate(seg).None? ==> e.err == Some(DateRangeFailed(DateRangeTexts(seg, f).error))
  {
    if Validate(seg).Some? then Emission([], Validate(seg))
    else
      match DateRangeTexts(seg, f)
      case Failure(reason) => Emission(DiscontinuityLines(seg), Some(DateRangeFailed(reason)))
      case Success(texts) => Emission(DiscontinuityLines(seg) + (Section(DateRangeLine, texts) + Tail(seg, f)), None)
  }

  /** The lines of a segment written without error, piece by piece. */
  lemma WrittenLines(seg: Segment, f: Formatters)
    requires WriteSegment(seg, f).err.None?
    ensures WriteSegment(seg, f).lines ==
      DiscontinuityLines(seg) + (Section(DateRangeLine, DateRangeTexts(seg, f).value) + Tail(seg, f))
  {
  }

  /** When a segment fails, the only line left behind is the discontinuity
      line, written before the date range helper failed. */
  lemma FailedSegmentLines(seg: Segment, f: Formatters)
    requires WriteSegment(seg, f).err.Some?
    ensures WriteSegment(seg, f).lines ==
      if Validate(seg).None? && seg.discontinuity then [Line(DiscontinuityLine, TagDiscontinuity)] else []
  {
  }

  /** A written segment ends with its `#EXTINF` line, then its URI. */
  lemma WrittenSegmentEnding(seg: Segment, f: Formatters)
    requires WriteSegment(seg, f).err.None?
    ensures |WriteSegment(seg, f).lines| >= 2
    ensures WriteSegment(seg, f).lines[|WriteSegment(seg, f).lines| - 2] == Line(DurationLine, DurationText(seg, f))
    ensures WriteSegment(seg, f).lines[|WriteSegment(seg, f).lines| - 1] == Line(UriLine, seg.uri)
  {
    var cl := ClosingLines(seg, f);
    var t4 := DateTimeLines(seg, f) + cl;
    var t3 := MapLines(seg, f) + t4;
    var t2 := KeyLines(seg, f) + t3;
    var t1 := ByteRangeLines(seg, f) + t2;
    var t0 := Section(DateRangeLine, DateRangeTexts(seg, f).value) + t1;
    LastTwoOfAppend(DateTimeLines(seg, f), cl);
    LastTwoOfAppend(MapLines(seg, f), t4);
    LastTwoOfAppend(KeyLines(seg, f), t3);
    LastTwoOfAppend(ByteRangeLines(seg, f), t2);
    LastTwoOfAppend(Section(DateRangeLine, DateRangeTexts(seg, f).value), t1);
    LastTwoOfAppend(DiscontinuityLines(seg), t0);
  }

  lemma LastTwoOfAppend(a: seq<Line>, b: seq<Line>)
    requires |b| >= 2
    ensures (a + b)[|a + b| - 2] == b[|b| - 2] && (a + b)[|a + b| - 1] == b[|b| - 1]
  {
  }

  /** The texts of the lines of kind `k`, in the order written. */
  function OfKind(lines: seq<Line>, k: LineKind): seq<string>
    decreases |lines|
  {
    if |lines| == 0 then []
    else (if lines[0].kind == k then [lines[0].text] else []) + OfKind(lines[1..], k)
  }

  /** Field by field, the lines a good segment must produce: one line per
      non-default single-line field, the helpers' lines for the date range
      and the map, and always the duration and the URI. */
  function Expected(seg: Segment, f: Formatters, k: LineKind): seq<string> {
    match k
    case DiscontinuityLine => if seg.discontinuity then [TagDiscontinuity] else []
    case DateRangeLine => (match DateRangeTexts(seg, f) case Success(t) => t case Failure(_) => [])
    case ByteRangeLine => if seg.range != NoRange then [ByteRangeText(seg, f)] else []
    case KeyLine => if seg.key.Some? then [KeyText(seg.key.value, f)] else []
    case MapLine => MapTexts(seg, f)
    case DateTimeLine => if !seg.dateTime.IsZero() then [DateTimeText(seg, f)] else []
    case DurationLine => [DurationText(seg, f)]
    case UriLine => [seg.uri]
  }

  lemma {:induction false} OfKindAppend(a: seq<Line>, b: seq<Line>, k: LineKind)
    ensures OfKind(a + b, k) == OfKind(a, k) + OfKind(b, k)
    decreases |a|
  {
    if |a| == 0 {
      assert a + b == b;
    } else {
      assert (a + b)[1..] == a[1..] + b;
      OfKindAppend(a[1..], b, k);
    }
  }

  lemma {:induction false} OfKindSection(kind: LineKind, texts: seq<string>, k: LineKind)
    ensures OfKind(Section(kind, texts), k) == if kind == k then texts else []
    decreases |texts|
  {
    if |texts| > 0 {
      assert Section(kind, texts)[1..] == Section(kind, texts[1..]);
      OfKindSection(kind, texts[1..], k);
    }
  }

  lemma OfKindOptional(present: bool, kind: LineKind, text: string, k: LineKind)
    ensures OfKind(Optional(present, kind, text), k) == if present && kind == k then [text] else []
  {
    if present {
      assert Optional(present, kind, text)[1..] == [];
    }
  }

  lemma TailSplitsByKind(seg: Segment, f: Formatters, k: LineKind)
    ensures OfKind(Tail(seg, f), k) ==
      OfKind(ByteRangeLines(seg, f), k) + (OfKind(KeyLines(seg, f), k) + (OfKind(MapLines(seg, f), k)
      + (OfKind(DateTimeLines(seg, f), k) + OfKind(ClosingLines(seg, f), k))))
  {
    var br, ky, mp, dt, cl := ByteRangeLines(seg, f), KeyLines(seg, f), MapLines(seg, f), DateTimeLines(seg, f), ClosingLines(seg, f);
    OfKindAppend(dt, cl, k);
    OfKindAppend(mp, dt + cl, k);
    OfKindAppend(ky, mp + (dt + cl), k);
    OfKindAppend(br, ky + (mp + (dt + cl)), k);
  }

  lemma OptionalPiecesByKind(seg: Segment, f: Formatters, k: LineKind)
    ensures OfKind(ByteRangeLines(seg, f), k) == if k == ByteRangeLine then Expected(seg, f, k) else []
    ensures OfKind(KeyLines(seg, f), k) == if k == KeyLine then Expected(seg, f, k) else []
    ensures OfKind(MapLines(seg, f), k) == if k == MapLine then Expected(seg, f, k) else []
    ensures OfKind(DateTimeLines(seg, f), k) == if k == DateTimeLine then Expected(seg, f, k) else []
  {
    OfKindOptional(seg.range != NoRange, ByteRangeLine, ByteRangeText(seg, f), k);
    if seg.key.Some? {
      OfKindOptional(true, KeyLine, KeyText(seg.key.value, f), k);
    }
    OfKindSection(MapLine, MapTexts(seg, f), k);
    OfKindOptional(!seg.dateTime.IsZero(), DateTimeLine, DateTimeText(seg, f), k);
  }

  lemma TailByKind(seg: Segment, f: Formatters, k: LineKind)
    ensures OfKind(Tail(seg, f), k) ==
      (if k == ByteRangeLine || k == KeyLine || k == MapLine || k == DateTimeLine || k == DurationLine || k == UriLine
       then Expected(seg, f, k) else [])
  {
    TailSplitsByKind(seg, f, k);
    OptionalPiecesByKind(seg, f, k);
    ClosingByKind(seg, f, k);
  }

  lemma ClosingByKind(seg: Segment, f: Formatters, k: LineKind)
    ensures OfKind(ClosingLines(seg, f), k) ==
      if k == DurationLine then [DurationText(seg, f)] else if k == UriLine then [seg.uri] else []
  {
    var cl := ClosingLines(seg, f);
    assert cl[1..] == [Line(UriLine, seg.uri)];
    assert cl[1..][1..] == [];
    assert OfKind(cl[1..], k) == (if k == UriLine then [seg.uri] else []) + OfKind([], k);
  }

  /** Each kind of line of a successfully written segment carries exactly
      the texts its field calls for, so a default field writes no line. */
  lemma WrittenLinesByKind(seg: Segment, f: Formatters, k: LineKind)
    requires WriteSegment(seg, f).err.None?
    ensures OfKind(WriteSegment(seg, f).lines, k) == Expected(seg, f, k)
  {
    var disc := DiscontinuityLines(seg);
    var dr := Section(DateRangeLine, DateRangeTexts(seg, f).value);
    WrittenLines(seg, f);
    OfKindAppend(dr, Tail(seg, f), k);
    OfKindAppend(disc, dr + Tail(seg, f), k);
    OfKindOptional(seg.discontinuity, DiscontinuityLine, TagDiscontinuity, k);
    OfKindSection(DateRangeLine, DateRangeTexts(seg, f).value, k);
    TailByKind(seg, f, k);
  }

  predicate RanksFrom(lines: seq<Line>, r: nat) {
    forall i :: 0 <= i < |lines| ==> Rank(lines[i].kind) >= r
  }

  /** A run of one kind is in order when that kind may repeat or the run has
      at most one line. */
  lemma RunInOrder(b: seq<Line>, k: LineKind)
    requires forall i :: 0 <= i < |b| ==> b[i].kind == k
    requires |b| <= 1 || MultiLine(k)
    ensures InOrder(b) && RanksFrom(b, Rank(k)) && RanksBelow(b, Rank(k) + 1)
  {
  }

  /** Two ordered runs whose ranks do not overlap form an ordered run. */
  lemma InOrderAppend(a: seq<Line>, b: seq<Line>, lo: nat, mid: nat, hi: nat)
    requires InOrder(a) && RanksFrom(a, lo) && RanksBelow(a, mid)
    requires InOrder(b) && RanksFrom(b, mid) && RanksBelow(b, hi)
    requires lo <= mid <= hi
    ensures InOrder(a + b) && RanksFrom(a + b, lo) && RanksBelow(a + b, hi)
  {
    var c := a + b;
    forall i, j | 0 <= i < j < |c|
      ensures Precedes(c[i].kind, c[j].kind)
    {
      if j < |a| {
        assert c[i] == a[i] && c[j] == a[j];
      } else if i >= |a| {
        assert c[i] == b[i - |a|] && c[j] == b[j - |a|];
      } else {
        assert Rank(c[i].kind) < mid <= Rank(c[j].kind);
      }
    }
  }

  /** A run of one kind put in front of ordered lines of higher ranks. */
  lemma PrependRun(b: seq<Line>, k: LineKind, rest: seq<Line>, hi: nat)
    requires forall i :: 0 <= i < |b| ==> b[i].kind == k
    requires |b| <= 1 || MultiLine(k)
    requires InOrder(rest) && RanksFrom(rest, Rank(k) + 1) && RanksBelow(rest, hi) && Rank(k) < hi
    ensures InOrder(b + rest) && RanksFrom(b + rest, Rank(k)) && RanksBelow(b + rest, hi)
  {
    RunInOrder(b, k);
    InOrderAppend(b, rest, Rank(k), Rank(k) + 1, hi);
  }

  lemma ClosingInOrder(seg: Segment, f: Formatters)
    ensures InOrder(ClosingLines(seg, f)) && RanksFrom(ClosingLines(seg, f), 6) && RanksBelow(ClosingLines(seg, f), 8)
  {
  }

  lemma TailInOrder(seg: Segment, f: Formatters)
    ensures InOrder(Tail(seg, f)) && RanksFrom(Tail(seg, f), 2) && RanksBelow(Tail(seg, f), 8)
  {
    var br, ky, mp, dt, cl := ByteRangeLines(seg, f), KeyLines(seg, f), MapLines(seg, f), DateTimeLines(seg, f), ClosingLines(seg, f);
    ClosingInOrder(seg, f);
    PrependRun(dt, DateTimeLine, cl, 8);
    PrependRun(mp, MapLine, dt + cl, 8);
    PrependRun(ky, KeyLine, mp + (dt + cl), 8);
    PrependRun(br, ByteRangeLine, ky + (mp + (dt + cl)), 8);
  }

  /** The lines of a segment, even a failed one, follow the fixed order
      discontinuity, date range, byte range, key, map, program date-time,
      duration, URI, and no single-line kind is written twice. */
  lemma WriteSegmentInOrder(seg: Segment, f: Formatters)
    ensures InOrder(WriteSegment(seg, f).lines)
  {
    var e := WriteSegment(seg, f);
    if Validate(seg).None? {
      var disc := DiscontinuityLines(seg);
      RunInOrder(disc, DiscontinuityLine);
      if e.err.None? {
        var dr := Section(DateRangeLine, DateRangeTexts(seg, f).value);
        TailInOrder(seg, f);
        PrependRun(dr, DateRangeLine, Tail(seg, f), 8);
        PrependRun(disc, DiscontinuityLine, dr + Tail(seg, f), 8);
      }
    }
  }

  /** A segment with only a duration and a URI writes exactly the `#EXTINF`
      line and the URI line. */
  lemma PlainSegmentWritesTwoLines(seg: Segment, f: Formatters)
    requires seg.uri != "" && seg.duration != 0
    requires !seg.discontinuity && seg.dateRange.None? && seg.range == NoRange
    requires seg.key.None? && seg.mediaMap.None? && seg.dateTime.IsZero()
    ensures Texts(WriteSegment(seg, f).lines) == [TagSegmentDuration + ":" + f.seconds(InMicroseconds(seg.duration)), seg.uri]
  {
    assert WriteSegment(seg, f).lines == [] + Section(DateRangeLine, []) + Tail(seg, f);
    assert Section(DateRangeLine, []) == [] && MapLines(seg, f) == [];
    assert Tail(seg, f) == ClosingLines(seg, f);
  }

  /** A valid segment with no date range, key, map or date-time writes its
      optional discontinuity and byte-range lines, then `#EXTINF` and its
      URI, and nothing else. */
  lemma UndatedSegmentTexts(seg: Segment, f: Formatters)
    requires seg.uri != "" && seg.duration != 0
    requires seg.dateRange.None? && seg.key.None? && seg.mediaMap.None? && seg.dateTime.IsZero()
    ensures WriteSegment(seg, f).err.None?
    ensures Texts(WriteSegment(seg, f).lines) ==
      (if seg.discontinuity then [TagDiscontinuity] else [])
      + (if seg.range != NoRange then [ByteRangeText(seg, f)] else [])
      + [TagSegmentDuration + ":" + f.seconds(InMicroseconds(seg.duration)), seg.uri]
  {
    var disc := DiscontinuityLines(seg);
    var br := ByteRangeLines(seg, f);
    var cl := ClosingLines(seg, f);
    assert Section(DateRangeLine, []) == [] && MapLines(seg, f) == [];
    assert WriteSegment(seg, f).lines == disc + (br + cl);
    assert Texts(disc + (br + cl)) == Texts(disc) + (Texts(br) + Texts(cl));
  }

  /** The text written for the given segments, one after another, when
      none of them fails. */
  function AllTexts(segments: seq<Segment>, f: Formatters): seq<string>
    decreases |segments|
  {
    if |segments| == 0 then []
    else AllTexts(segments[..|segments| - 1], f) + Texts(WriteSegment(segments[|segments| - 1], f).lines)
  }

  /** Segment `k` is the first whose iteration ends the call. */
  predicate FirstFailure(segments: seq<Segment>, f: Formatters, k: int) {
    && 0 <= k < |segments|
    && WriteSegment(segments[k], f).err.Some?
    && forall j :: 0 <= j < k ==> WriteSegment(segments[j], f).err.None?
  }

  /** The text of the first `i + 1` segments extends that of the first `i`. */
  lemma AllTextsExtend(segments: seq<Segment>, f: Formatters, i: nat)
    requires i < |segments|
    ensures AllTexts(segments[..i + 1], f) == AllTexts(segments[..i], f) + Texts(WriteSegment(segments[i], f).lines)
  {
    assert segments[..i + 1][..i] == segments[..i];
  }

  /** `writeSegments(w, segments)`: the segments in order; the first one that
      fails ends the call, after the text of all earlier segments (and, for
      a date-range failure, its own discontinuity line) has been written.
      The byte count it returns is always 0. */
  method WriteSegments(segments: seq<Segment>, f: Formatters) returns (written: seq<string>, n: int, err: Option<WriteError>)
    ensures n == 0
    ensures err.None? <==> forall i :: 0 <= i < |segments| ==> WriteSegment(segments[i], f).err.None?
    ensures err.None? ==> written == AllTexts(segments, f)
    ensures err.Some? ==> exists k :: FirstFailure(segments, f, k) && err == WriteSegment(segments[k], f).err
                                      && written == AllTexts(segments[..k], f) + Texts(WriteSegment(segments[k], f).lines)
  {
    written := [];
    n := 0;
    var i := 0;
    while i < |segments|
      invariant 0 <= i <= |segments|
      invariant forall j :: 0 <= j < i ==> WriteSegment(segments[j], f).err.None?
      invariant written == AllTexts(segments[..i], f)
    {
      var e := WriteSegment(segments[i], f);
      if e.err.Some? {
        assert FirstFailure(segments, f, i);
        written := written + Texts(e.lines);
        err := e.err;
        return;
      }
      AllTextsExtend(segments, f, i);
      written := written + Texts(e.lines);
      i := i + 1;
    }
    assert segments[..i] == segments;
    err := None;
  }

  /** A ten-second segment `a.ts` is written as `#EXTINF:` with the text of
      10,000,000 microseconds, then `a.ts`. */
  lemma TenSecondSegmentText(f: Formatters)
    ensures Texts(WriteSegment(EmptySegment.(duration := 10 * Second, uri := "a.ts"), f).lines)
         == ["#EXTINF:" + f.seconds(10_000_000), "a.ts"]
  {
    var seg := EmptySegment.(duration := 10 * Second, uri := "a.ts");
    assert InMicroseconds(seg.duration) == 10_000_000;
    assert TagSegmentDuration + ":" == "#EXTINF:";
    PlainSegmentWritesTwoLines(seg, f);
  }
}
