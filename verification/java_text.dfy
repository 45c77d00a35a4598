/**
  The handful of java.lang.String and java.lang.Long behaviours the service
  relies on: nullable strings, `String.trim`, `String.valueOf(long)` and
  `Long.parseLong`, together with the ASCII character classes `\d` and `\s`
  of java.util.regex.
 */
module JavaText {
  import opened Wrappers

  /** A Java `String` reference: `None` is `null`. */
  type JString = Option<string>

  const MIN_LONG: int := -0x8000_0000_0000_0000
  const MAX_LONG: int := 0x7FFF_FFFF_FFFF_FFFF

  /** A value a Java `long` can hold. */
  predicate InLongRange(v: int) {
    MIN_LONG <= v <= MAX_LONG
  }

  /** `\d` of java.util.regex without UNICODE_CHARACTER_CLASS: ASCII 0-9. */
  predicate IsDigit(c: char) {
    '0' <= c <= '9'
  }

  /** `\s` of java.util.regex: space, \t, \n, \x0B, \f, \r. */
  predicate IsSpace(c: char) {
    c == ' ' || c == '\t' || c == '\n' || c == '\U{B}' || c == '\U{C}' || c == '\r'
  }

  /** The characters `String.trim` strips: every code point up to U+0020. */
  predicate IsTrimmable(c: char) {
    c <= ' '
  }

  predicate AllDigits(s: string) {
    forall i :: 0 <= i < |s| ==> IsDigit(s[i])
  }

  predicate Blank(s: string) {
    forall i :: 0 <= i < |s| ==> IsTrimmable(s[i])
  }

  // ---------------------------------------------------------------------------
  // String.trim

  /** Drops the leading characters `String.trim` strips. */
  function TrimStart(s: string): (r: string)
    ensures |r| <= |s| && r == s[|s| - |r|..]
    ensures Blank(s[..|s| - |r|])
    ensures r == [] || !IsTrimmable(r[0])
  {
    if |s| > 0 && IsTrimmable(s[0]) then
      var r := TrimStart(s[1..]);
      assert [s[0]] + s[1..][..|s[1..]| - |r|] == s[..|s| - |r|];
      r
    else s
  }

  /** Drops the trailing characters `String.trim` strips. */
  function TrimEnd(s: string): (r: string)
    ensures |r| <= |s| && r == s[..|r|]
    ensures Blank(s[|r|..])
    ensures r == [] || !IsTrimmable(r[|r| - 1])
  {
    if |s| > 0 && IsTrimmable(s[|s| - 1]) then
      var r := TrimEnd(s[..|s| - 1]);
      assert s[..|s| - 1][|r|..] + [s[|s| - 1]] == s[|r|..];
      r
    else s
  }

  /** The number of leading characters `String.trim` strips. */
  function LeadingTrimmed(s: string): (n: nat)
    ensures n <= |s|
  {
    |s| - |TrimStart(s)|
  }

  /** `String.trim`: the infix left after stripping both ends. */
  function Trim(s: string): (r: string)
    ensures LeadingTrimmed(s) + |r| <= |s|
    ensures r == s[LeadingTrimmed(s)..LeadingTrimmed(s) + |r|]
    ensures Blank(s[..LeadingTrimmed(s)]) && Blank(s[LeadingTrimmed(s) + |r|..])
    ensures r == [] || (!IsTrimmable(r[0]) && !IsTrimmable(r[|r| - 1]))
  {
    var a := TrimStart(s);
    var n := |s| - |a|;
    assert a == s[n..];
    var r := TrimEnd(a);
    assert r == s[n..n + |r|];
    assert s[n + |r|..] == a[|r|..];
    r
  }

  /** `s.trim().isEmpty()` holds exactly when every character is trimmable. */
  lemma TrimEmptyIffBlank(s: string)
    ensures Trim(s) == [] <==> Blank(s)
  {
    var n := LeadingTrimmed(s);
    if Trim(s) == [] {
      assert s == s[..n] + s[n..];
      forall i | 0 <= i < |s| ensures IsTrimmable(s[i]) {
        assert s[i] == s[..n][i];
      }
    } else {
      assert s[n] == Trim(s)[0];
    }
  }

  /** A string that neither starts nor ends with a trimmable character is its own trim. */
  lemma TrimUnchanged(s: string)
    requires s != [] && !IsTrimmable(s[0]) && !IsTrimmable(s[|s| - 1])
    ensures Trim(s) == s
  {
  }

  // ---------------------------------------------------------------------------
  // String.valueOf(long) and Long.parseLong

  function DigitChar(d: nat): (c: char)
    requires d < 10
    ensures IsDigit(c)
  {
    ['0', '1', '2', '3', '4', '5', '6', '7', '8', '9'][d]
  }

  function DigitValue(c: char): (d: nat)
    requires IsDigit(c)
    ensures d < 10 && DigitChar(d) == c
  {
    (c as int - '0' as int) as nat
  }

  /** The decimal digits of `n`, most significant first, with no leading zero. */
  function Digits(n: nat): (s: string)
    ensures |s| > 0 && AllDigits(s)
    ensures |s| > 1 || n > 0 ==> s[0] != '0'
  {
    if n < 10 then [DigitChar(n)] else Digits(n / 10) + [DigitChar(n % 10)]
  }

  /** The number a non-empty run of ASCII digits denotes. */
  function DigitsValue(s: string): nat
    requires AllDigits(s)
  {
    if |s| == 0 then 0
    else 10 * DigitsValue(s[..|s| - 1]) + DigitValue(s[|s| - 1])
  }

  lemma {:induction false} DigitsRoundTrip(n: nat)
    ensures DigitsValue(Digits(n)) == n
  {
    if n >= 10 {
      var s := Digits(n);
      assert s[..|s| - 1] == Digits(n / 10);
      DigitsRoundTrip(n / 10);
    }
  }

  /**
    `String.valueOf(long)`: the canonical decimal text, a minus sign for a
    negative value and no leading zero.
   */
  function LongToString(v: int): (s: string)
    ensures |s| > 0 && !IsTrimmable(s[0]) && IsDigit(s[|s| - 1])
    ensures v >= 0 ==> AllDigits(s) && DigitsValue(s) == v && (|s| > 1 ==> s[0] != '0')
    ensures v < 0 ==> |s| > 1 && s[0] == '-' && AllDigits(s[1..]) && DigitsValue(s[1..]) == -v && s[1] != '0'
  {
    if v < 0 then
      DigitsRoundTrip(-v);
      assert ("-" + Digits(-v))[1..] == Digits(-v);
      "-" + Digits(-v)
    else
      DigitsRoundTrip(v);
      Digits(v)
  }

  /**
    `Long.parseLong`: an optional '+' or '-' followed by at least one digit,
    denoting a value inside the `long` range; `None` is the
    NumberFormatException.
   */
  function ParseLong(s: string): (r: Option<int>)
    ensures r.Some? ==> InLongRange(r.value)
    ensures r.Some? ==> s != [] && (IsDigit(s[0]) || s[0] == '-' || s[0] == '+')
    ensures s == [] ==> r.None?
    // what a successful parse reads: the signed decimal value of the digits
    ensures r.Some? && s != [] && IsDigit(s[0]) ==> AllDigits(s) && r.value == DigitsValue(s)
    ensures r.Some? && s != [] && s[0] == '-' ==>
      |s| > 1 && AllDigits(s[1..]) && r.value == -(DigitsValue(s[1..]) as int)
    ensures r.Some? && s != [] && s[0] == '+' ==>
      |s| > 1 && AllDigits(s[1..]) && r.value == DigitsValue(s[1..])
    // and every such text inside the long range parses
    ensures s != [] && AllDigits(s) && DigitsValue(s) <= MAX_LONG ==> r == Some(DigitsValue(s))
    ensures |s| > 1 && s[0] == '-' && AllDigits(s[1..]) && DigitsValue(s[1..]) <= -MIN_LONG ==>
      r == Some(-(DigitsValue(s[1..]) as int))
    ensures |s| > 1 && s[0] == '+' && AllDigits(s[1..]) && DigitsValue(s[1..]) <= MAX_LONG ==>
      r == Some(DigitsValue(s[1..]) as int)
  {
    if |s| == 0 then None
    else if s[0] == '-' || s[0] == '+' then
      var body := s[1..];
      if |body| == 0 || !AllDigits(body) then None
      else
        var v: int := if s[0] == '-' then -(DigitsValue(body) as int) else DigitsValue(body);
        if InLongRange(v) then Some(v) else None
    else if AllDigits(s) && DigitsValue(s) <= MAX_LONG then Some(DigitsValue(s))
    else None
  }

  /** The digits of a non-negative `long` parse back to it. */
  lemma ParseDigits(n: nat)
    requires n <= MAX_LONG
    ensures ParseLong(Digits(n)) == Some(n)
  {
    var s := Digits(n);
    assert IsDigit(s[0]);
    DigitsRoundTrip(n);
  }

  /** A minus sign and the digits of a negative `long`'s magnitude parse back to it. */
  lemma ParseNegativeDigits(n: nat)
    requires 0 < n && -(n as int) >= MIN_LONG
    ensures ParseLong("-" + Digits(n)) == Some(-(n as int))
  {
    var s := "-" + Digits(n);
    assert s[0] == '-' && s[1..] == Digits(n);
    DigitsRoundTrip(n);
  }

  /** What `String.valueOf` writes, `Long.parseLong` (after a trim) reads back. */
  lemma LongRoundTrip(v: int)
    requires InLongRange(v)
    ensures ParseLong(Trim(LongToString(v))) == Some(v)
  {
    TrimUnchanged(LongToString(v));
    if v < 0 {
      ParseNegativeDigits(-v);
    } else {
      ParseDigits(v);
    }
  }

  /** A leading '+', leading zeros, a trailing non-digit and a bare sign, as `Long.parseLong` treats them. */
  lemma ParseLongExamples()
    ensures ParseLong("+5") == Some(5)
    ensures ParseLong("007") == Some(7)
    ensures ParseLong("-12") == Some(-12)
    ensures ParseLong("12a") == None
    ensures ParseLong("-") == None
  {
    assert "+5"[1..] == "5";
    assert "007"[..2] == "00" && "00"[..1] == "0";
    assert "-12"[1..] == "12" && "12"[..1] == "1";
    assert !IsDigit("12a"[2]);
  }
}
