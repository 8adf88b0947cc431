/** Decimal integer text as `strconv.Atoi` reads it, and its inverse. */
module Numbers {
  import opened Results

  predicate IsDigit(c: char) {
    '0' <= c <= '9'
  }

  predicate AllDigits(s: string) {
    forall i :: 0 <= i < |s| ==> IsDigit(s[i])
  }

  /** The syntax `strconv.Atoi` accepts in base 10: an optional `+` or `-`
      followed by at least one ASCII digit (no spaces, no underscores). */
  predicate IsDecimal(s: string) {
    if |s| > 0 && (s[0] == '+' || s[0] == '-') then
      |s| > 1 && AllDigits(s[1..])
    else
      |s| > 0 && AllDigits(s)
  }

  function DigitValue(c: char): (d: nat)
    requires IsDigit(c)
    ensures d < 10
  {
    (c as int - '0' as int) as nat
  }

  function DigitChar(d: nat): (c: char)
    requires d < 10
    ensures IsDigit(c) && DigitValue(c) == d
  {
    ('0' as int + d) as char
  }

  /** The value of a digit string read left to right, `n = n*10 + d`. */
  function DigitsValue(s: string): nat
    requires AllDigits(s)
    decreases |s|
  {
    if |s| == 0 then 0 else DigitsValue(s[..|s| - 1]) * 10 + DigitValue(s[|s| - 1])
  }

  /** `strconv.Atoi` over unbounded integers: None is its syntax error. */
  function Atoi(s: string): (r: Option<int>)
    ensures r.Some? <==> IsDecimal(s)
    ensures r.Some? && s[0] == '-' ==> r.value <= 0
    ensures r.Some? && s[0] != '-' ==> r.value >= 0
  {
    if |s| == 0 then None
    else if s[0] == '+' || s[0] == '-' then
      var digits := s[1..];
      if |digits| == 0 || !AllDigits(digits) then None
      else
        var v: int := DigitsValue(digits);
        if s[0] == '-' then Some(-v) else Some(v)
    else if AllDigits(s) then Some(DigitsValue(s))
    else None
  }

  /** The shortest decimal digits of `n`. */
  function NatDigits(n: nat): (s: string)
    ensures |s| > 0 && AllDigits(s)
    ensures n > 0 ==> s[0] != '0'
    decreases n
  {
    if n < 10 then [DigitChar(n)] else NatDigits(n / 10) + [DigitChar(n % 10)]
  }

  /** `strconv.Itoa`: the canonical decimal text of `n`. */
  function Itoa(n: int): (s: string)
    ensures IsDecimal(s)
    ensures '.' !in s
  {
    if n < 0 then "-" + NatDigits(-n) else NatDigits(n)
  }

  lemma {:induction false} DigitsValueOfNatDigits(n: nat)
    ensures DigitsValue(NatDigits(n)) == n
    decreases n
  {
    if n >= 10 {
      var s := NatDigits(n);
      var front := NatDigits(n / 10);
      assert s == front + [DigitChar(n % 10)];
      assert s[..|s| - 1] == front;
      DigitsValueOfNatDigits(n / 10);
    }
  }

  /** Reading back the text `Itoa` writes gives the same integer. */
  lemma AtoiOfItoa(n: int)
    ensures Atoi(Itoa(n)) == Some(n)
  {
    if n < 0 {
      var digits := NatDigits(-n);
      var s := "-" + digits;
      assert s == Itoa(n);
      assert s[0] == '-' && s[1..] == digits;
      DigitsValueOfNatDigits(-n);
    } else {
      var s := NatDigits(n);
      assert s[0] != '+' && s[0] != '-' by { assert IsDigit(s[0]); }
      DigitsValueOfNatDigits(n);
    }
  }
}
