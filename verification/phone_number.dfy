/**
  `extractPhoneNumber`: the first phone-number-shaped run of a comment
  message, found with the fixed pattern
  `(\+?\d{1,3}[-\s]?)?\(?\d{3}\)?[-\s]?\d{3}[-\s]?\d{4}`
  and `Matcher.find`, or the empty string.
 */
module PhoneNumber {
  import opened Wrappers
  import opened JavaText
  import opened Regex

  /** The pattern, element by element. */
  const PhonePattern: seq<Node> := [
    MaybeGroup([Maybe(Literal('+')), Count(Digit, 1, 3), Maybe(DashOrSpace)]),
    Maybe(Literal('(')),
    Count(Digit, 3, 3),
    Maybe(Literal(')')),
    Maybe(DashOrSpace),
    Count(Digit, 3, 3),
    Maybe(DashOrSpace),
    Count(Digit, 4, 4)
  ]

  /** A word the phone pattern describes. */
  ghost predicate PhoneShaped(w: string) {
    Lang(PhonePattern, w)
  }

  /** Some infix of `s` is phone-shaped. */
  ghost predicate HasPhone(s: string) {
    exists a, b :: 0 <= a <= b <= |s| && PhoneShaped(s[a..b])
  }

  /** Every phone-shaped word has 10 to 13 digits and ends with a digit. */
  lemma PhoneShapedDigits(w: string)
    requires PhoneShaped(w)
    ensures 10 <= DigitCount(w) <= 13
    ensures |w| > 0 && IsDigit(w[|w| - 1])
  {
    DigitBounds(PhonePattern, w);
    PatternDigitBounds();
    LastCharIsDigit(PhonePattern, w);
  }

  lemma PatternDigitBounds()
    ensures MinDigits(PhonePattern) == 10
    ensures MaxDigits(PhonePattern) == 13
    ensures EndsInDigit(PhonePattern)
  {
    assert MinDigits(PhonePattern[7..]) == 4;
    assert MinDigits(PhonePattern[6..]) == 4;
    assert MinDigits(PhonePattern[5..]) == 7;
    assert MinDigits(PhonePattern[4..]) == 7;
    assert MinDigits(PhonePattern[3..]) == 7;
    assert MinDigits(PhonePattern[2..]) == 10;
    assert MinDigits(PhonePattern[1..]) == 10;
    assert MaxDigits(PhonePattern[7..]) == 4;
    assert MaxDigits(PhonePattern[6..]) == 4;
    assert MaxDigits(PhonePattern[5..]) == 7;
    assert MaxDigits(PhonePattern[4..]) == 7;
    assert MaxDigits(PhonePattern[3..]) == 7;
    assert MaxDigits(PhonePattern[2..]) == 10;
    assert MaxDigits(PhonePattern[1..]) == 10;
    assert MaxDigits(PhonePattern[0].body) == 3;
  }

  /**
    `Matcher.find` from start index `k`: the leftmost start at or after `k`
    where the pattern matches, and where the first successful path ends.
   */
  function FindFrom(s: string, k: nat): (r: Option<(nat, nat)>)
    requires k <= |s| + 1
    ensures r.Some? ==> k <= r.value.0 <= r.value.1 <= |s| && PhoneShaped(s[r.value.0..r.value.1])
    ensures r.Some? ==> forall a, b :: k <= a < r.value.0 && a <= b <= |s| ==> !PhoneShaped(s[a..b])
    ensures r.None? <==> forall a, b :: k <= a <= b <= |s| ==> !PhoneShaped(s[a..b])
    ensures r.Some? ==> Match(PhonePattern, s, r.value.0) == Some(r.value.1)
    decreases |s| + 1 - k
  {
    if k > |s| then None
    else
      MatchSound(PhonePattern, s, k);
      match Match(PhonePattern, s, k)
      case Some(j) => Some((k, j))
      case None =>
        forall b | k <= b <= |s| ensures !PhoneShaped(s[k..b]) {
          if PhoneShaped(s[k..b]) {
            MatchComplete(PhonePattern, s, k, b);
          }
        }
        FindFrom(s, k + 1)
  }

  /** `Matcher.find` followed by `Matcher.group`, as a span of `s`. */
  function Find(s: string): (r: Option<(nat, nat)>)
    ensures r.Some? ==> r.value.0 <= r.value.1 <= |s| && PhoneShaped(s[r.value.0..r.value.1])
    ensures r.Some? ==> forall a, b :: 0 <= a < r.value.0 && a <= b <= |s| ==> !PhoneShaped(s[a..b])
    ensures r.Some? <==> HasPhone(s)
    ensures r.Some? ==> Match(PhonePattern, s, r.value.0) == Some(r.value.1)
  {
    FindFrom(s, 0)
  }

  /** A blank message holds no phone-shaped infix: every such word ends with a digit. */
  lemma BlankHasNoPhone(s: string)
    requires Blank(s)
    ensures !HasPhone(s)
  {
    if HasPhone(s) {
      var a, b :| 0 <= a <= b <= |s| && PhoneShaped(s[a..b]);
      PhoneShapedDigits(s[a..b]);
    }
  }

  /**
    `r` sits at index `a` of `s`, no phone-shaped infix starts before `a`,
    and `r` ends where the matcher's first successful path from `a` ends.
   */
  ghost predicate LeftmostPhoneAt(s: string, a: nat, r: string) {
    && a + |r| <= |s| && r == s[a..a + |r|]
    && (forall a', b :: 0 <= a' < a && a' <= b <= |s| ==> !PhoneShaped(s[a'..b]))
    && Match(PhonePattern, s, a) == Some(a + |r|)
  }

  /** What `Matcher.group` returns after a successful `find`. */
  lemma FoundPhone(m: string, a: nat, b: nat)
    requires Find(m) == Some((a, b))
    ensures a <= b <= |m|
    ensures PhoneShaped(m[a..b]) && 10 <= DigitCount(m[a..b]) <= 13
    ensures |m[a..b]| > 0 && IsDigit(m[a..b][|m[a..b]| - 1])
    ensures LeftmostPhoneAt(m, a, m[a..b])
  {
    PhoneShapedDigits(m[a..b]);
  }

  /**
    `extractPhoneNumber`: "" for a null or blank message; otherwise the
    leftmost phone-shaped infix the backtracking matcher reports, or "".
   */
  function ExtractPhoneNumber(message: JString): (r: string)
    ensures message.None? ==> r == ""
    ensures message.Some? ==> (r != "" <==> HasPhone(message.value))
    ensures r != "" ==> PhoneShaped(r) && 10 <= DigitCount(r) <= 13 && IsDigit(r[|r| - 1])
    ensures r != "" ==> exists a :: LeftmostPhoneAt(message.value, a, r)
  {
    match message
    case None => ""
    case Some(m) =>
      if Trim(m) == [] then
        TrimEmptyIffBlank(m);
        BlankHasNoPhone(m);
        ""
      else
        match Find(m)
        case None => ""
        case Some((a, b)) =>
          FoundPhone(m, a, b);
          m[a..b]
  }
}
