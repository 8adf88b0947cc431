/** `parseSegmentDuration`: the `#EXTINF` operand as a `time.Duration`, and the
    microsecond count the writer derives from a duration. Durations are
    unbounded integer nanoseconds (Go's are int64). */
module Durations {
  import opened Results
  import opened Tokens
  import opened Numbers

  /** `time.Microsecond` and `time.Second`, in nanoseconds. */
  const Microsecond := 1000
  const Second := 1_000_000_000

  datatype DurationError =
    | WrongKind(got: Token)       // neither an attribute name nor a number
    | BadInteger(literal: string) // `strconv.Atoi` refused the text
    | BadFloat(literal: string)   // `strconv.ParseFloat` refused the text

  /** The position of the first `c` in `s`. */
  function IndexOf(s: string, c: char): (r: Option<nat>)
    ensures r.None? <==> c !in s
    ensures r.Some? ==> r.value < |s| && s[r.value] == c && c !in s[..r.value]
  {
    if |s| == 0 then None
    else if s[0] == c then Some(0)
    else match IndexOf(s[1..], c)
      case None => None
      case Some(i) =>
        assert s[1..][..i] == s[1..i + 1];
        Some(i + 1)
  }

  /** `strings.Cut(s, sep)`: the text around the first `sep`, and whether it
      was found; when absent, `before` is all of `s` and `after` is empty. */
  function Cut(s: string, sep: char): (r: (string, string, bool))
    ensures r.2 <==> sep in s
    ensures r.2 ==> s == r.0 + [sep] + r.1 && sep !in r.0
    ensures !r.2 ==> r.0 == s && r.1 == ""
  {
    match IndexOf(s, sep)
    case None => (s, "", false)
    case Some(i) =>
      assert s == s[..i] + [sep] + s[i + 1..];
      (s[..i], s[i + 1..], true)
  }

  /** The flag of the loop `for r := range after { if r != '0' { … } }`.
      Ranging over a Go string binds `r` to the byte INDICES 0, 1, …, n-1, not
      to the characters, and the flag is cleared by any index other than the
      rune '0' (48). This is the flag after scanning a fraction of `n` bytes:
      index 0 clears it, so it survives only an empty fraction. */
  function IndicesAllZeroRune(n: nat): (allZeroes: bool)
    ensures allZeroes <==> n == 0
  {
    if n == 0 then true else IndicesAllZeroRune(n - 1) && (n - 1) == '0' as int
  }

  /** The floating-point fallback: `ParseFloat(literal, 32)` scaled by 1e6 and
      truncated to whole microseconds. `floatMicros` stands for that
      conversion; None is a ParseFloat error. */
  function FloatPath(literal: string, floatMicros: string -> Option<int>): (r: Result<int, DurationError>)
    ensures r.Failure? <==> floatMicros(literal).None?
    ensures r.Failure? ==> r.error == BadFloat(literal)
    ensures r.Success? ==> r.value == floatMicros(literal).value * Microsecond && r.value % Microsecond == 0
  {
    match floatMicros(literal)
    case None => Failure(BadFloat(literal))
    case Some(us) => Success(us * Microsecond)
  }

  /** An integer literal read as whole seconds. */
  function WholeSeconds(literal: string): (r: Result<int, DurationError>)
    ensures r.Success? <==> IsDecimal(literal)
    ensures r.Failure? ==> r.error == BadInteger(literal)
    ensures r.Success? ==> r.value == Atoi(literal).value * Second
    ensures r.Success? ==> r.value % Second == 0 && r.value % Microsecond == 0
  {
    match Atoi(literal)
    case None => Failure(BadInteger(literal))
    case Some(i) =>
      SecondsAreWholeMicroseconds(i);
      Success(i * Second)
  }

  lemma SecondsAreWholeMicroseconds(i: int)
    ensures (i * Second) % Second == 0 && (i * Second) % Microsecond == 0
  {
    assert i * Second == (i * 1_000_000) * Microsecond;
  }

  /** `parseSegmentDuration`: only attribute-name and number tokens are
      durations; text without a `.` is exact whole seconds; text whose part
      after the first `.` is empty is exact whole seconds of the part before
      it; everything else goes through the floating-point fallback. */
  function ParseSegmentDuration(it: Token, floatMicros: string -> Option<int>): (r: Result<int, DurationError>)
    ensures r.Failure? && r.error.WrongKind? <==> it.kind != AttrName && it.kind != Number
    ensures r.Failure? && r.error.WrongKind? ==> r.error.got == it
    ensures r.Success? ==> r.value % Microsecond == 0
    ensures r.Success? && '.' !in it.value ==> r.value % Second == 0
    ensures (it.kind == AttrName || it.kind == Number) && '.' !in it.value ==>
              (r.Success? <==> Atoi(it.value).Some?) &&
              (r.Success? ==> r.value == Atoi(it.value).value * Second) &&
              (r.Failure? ==> r.error == BadInteger(it.value))
    ensures (it.kind == AttrName || it.kind == Number) && '.' in it.value && Cut(it.value, '.').1 == "" ==>
              (r.Success? <==> Atoi(Cut(it.value, '.').0).Some?) &&
              (r.Success? ==> r.value == Atoi(Cut(it.value, '.').0).value * Second) &&
              (r.Failure? ==> r.error == BadInteger(Cut(it.value, '.').0))
    ensures (it.kind == AttrName || it.kind == Number) && '.' in it.value && Cut(it.value, '.').1 != "" ==>
              (r.Success? <==> floatMicros(it.value).Some?) &&
              (r.Success? ==> r.value == floatMicros(it.value).value * Microsecond) &&
              (r.Failure? ==> r.error == BadFloat(it.value))
  {
    if it.kind != AttrName && it.kind != Number then Failure(WrongKind(it))
    else if '.' !in it.value then WholeSeconds(it.value)
    else
      var (before, after, _) := Cut(it.value, '.');
      if IndicesAllZeroRune(|after|) then WholeSeconds(before)
      else FloatPath(it.value, floatMicros)
  }

  /** `d / time.Microsecond`: Go's integer division truncates toward zero. */
  function InMicroseconds(d: int): (us: int)
    ensures d >= 0 ==> 0 <= d - us * Microsecond < Microsecond
    ensures d < 0 ==> 0 <= us * Microsecond - d < Microsecond
  {
    if d >= 0 then d / Microsecond else -((-d) / Microsecond)
  }

  /** An integer-second literal decodes to exactly that many seconds, with no
      floating point involved. */
  lemma IntegerLiteralIsExact(n: int, kind: Kind, floatMicros: string -> Option<int>)
    requires kind == Number || kind == AttrName
    ensures ParseSegmentDuration(Token(kind, Itoa(n)), floatMicros) == Success(n * Second)
  {
    AtoiOfItoa(n);
  }

  /** A literal that ends in a bare `.` decodes to exactly the seconds before it. */
  lemma EmptyFractionIsExact(n: int, kind: Kind, floatMicros: string -> Option<int>)
    requires kind == Number || kind == AttrName
    ensures ParseSegmentDuration(Token(kind, Itoa(n) + "."), floatMicros) == Success(n * Second)
  {
    var literal := Itoa(n) + ".";
    assert literal[|literal| - 1] == '.';
    assert literal == Itoa(n) + ['.'] + "";
    CutAtFirst(Itoa(n), '.', "");
    AtoiOfItoa(n);
  }

  /** Any literal with a non-empty fraction, zeros included (`10.000`), takes
      the floating-point fallback on the whole literal. */
  lemma NonEmptyFractionTakesFloatPath(before: string, after: string, kind: Kind, floatMicros: string -> Option<int>)
    requires kind == Number || kind == AttrName
    requires '.' !in before && |after| > 0
    ensures ParseSegmentDuration(Token(kind, before + "." + after), floatMicros)
         == FloatPath(before + "." + after, floatMicros)
  {
    var literal := before + "." + after;
    assert literal[|before|] == '.';
    assert literal == before + ['.'] + after;
    CutAtFirst(before, '.', after);
  }

  /** The first separator is the one after a separator-free prefix. */
  lemma {:induction false} IndexOfAfterPrefix(before: string, sep: char, after: string)
    requires sep !in before
    ensures IndexOf(before + [sep] + after, sep) == Some(|before|)
    decreases |before|
  {
    var s := before + [sep] + after;
    if |before| > 0 {
      assert s[0] == before[0] != sep;
      assert s[1..] == before[1..] + [sep] + after;
      IndexOfAfterPrefix(before[1..], sep, after);
    }
  }

  /** `Cut` splits at the first separator, whatever follows it. */
  lemma CutAtFirst(before: string, sep: char, after: string)
    requires sep !in before
    ensures Cut(before + [sep] + after, sep) == (before, after, true)
  {
    var s := before + [sep] + after;
    IndexOfAfterPrefix(before, sep, after);
    assert s[..|before|] == before && s[|before| + 1..] == after;
  }

  /** Every decoded duration is a whole number of microseconds, so the
      writer's truncating `d / time.Microsecond` loses nothing. */
  lemma DecodedDurationKeepsMicroseconds(it: Token, floatMicros: string -> Option<int>)
    requires ParseSegmentDuration(it, floatMicros).Success?
    ensures InMicroseconds(ParseSegmentDuration(it, floatMicros).value) * Microsecond
         == ParseSegmentDuration(it, floatMicros).value
  {
    WholeMicrosecondsRoundTrip(ParseSegmentDuration(it, floatMicros).value);
  }

  /** A whole number of microseconds survives the truncating division. */
  lemma WholeMicrosecondsRoundTrip(d: int)
    requires d % Microsecond == 0
    ensures InMicroseconds(d) * Microsecond == d
  {
    var q := d / Microsecond;
    assert d == q * Microsecond;
    if d < 0 {
      assert -d == (-q) * Microsecond;
      assert (-d) / Microsecond == -q;
    }
  }
}
