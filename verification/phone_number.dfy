/** `isValidIndianPhoneNumber`, written out identically in both screens:
    delete every `[\s-]`, then require the whole rest to match
    `^[6-9]\d{9}$`. */
module PhoneNumber {

  /** Java's regex class `\s`: space, tab, line feed, vertical tab, form
      feed and carriage return. */
  predicate IsRegexSpace(c: char) {
    c == ' ' || c == '\t' || c == '\n' || c == '\U{B}' || c == '\U{C}' || c == '\r'
  }

  /** The class `[\s-]` that the validator deletes before matching. */
  predicate IsSeparator(c: char) {
    IsRegexSpace(c) || c == '-'
  }

  /** Java's regex class `\d`, which without UNICODE_CHARACTER_CLASS is `[0-9]`. */
  predicate IsAsciiDigit(c: char) {
    '0' <= c <= '9'
  }

  /** `number.replace(Regex("[\\s-]"), "")`: every separator deleted, the
      other characters kept in order. */
  function Clean(s: string): (t: string)
    decreases |s|
    ensures |t| <= |s|
    ensures forall k :: 0 <= k < |t| ==> !IsSeparator(t[k])
  {
    if |s| == 0 then ""
    else (if IsSeparator(s[0]) then "" else [s[0]]) + Clean(s[1..])
  }

  /** One bracket expression of a regular expression: `[lo-hi]`. */
  datatype CharClass = Range(lo: char, hi: char)

  /** `^[6-9]\d{9}$`. It has no alternation and no variable repetition, so
      it is one character class per matched character. */
  const Digit := Range('0', '9')
  const MobilePattern: seq<CharClass> :=
    [Range('6', '9'), Digit, Digit, Digit, Digit, Digit, Digit, Digit, Digit, Digit]

  /** `String.matches`: the pattern, from class `i` on, must consume the
      whole rest of the string. */
  function MatchFrom(t: string, p: seq<CharClass>, i: nat): bool
    requires i <= |p|
    decreases |p| - i
  {
    if i == |p| then |t| == |p|
    else i < |t| && p[i].lo <= t[i] <= p[i].hi && MatchFrom(t, p, i + 1)
  }

  /** `isValidIndianPhoneNumber(number)`. */
  predicate IsValidIndianPhoneNumber(number: string) {
    MatchFrom(Clean(number), MobilePattern, 0)
  }

  /** A class-per-character pattern matches exactly the strings of its
      length whose characters fall in the classes position by position. */
  lemma {:induction false} MatchFromIff(t: string, p: seq<CharClass>, i: nat)
    requires i <= |p|
    ensures MatchFrom(t, p, i) <==>
      |t| == |p| && forall k :: i <= k < |p| ==> p[k].lo <= t[k] <= p[k].hi
    decreases |p| - i
  {
    if i < |p| {
      MatchFromIff(t, p, i + 1);
    }
  }

  /** Validity in plain terms: after deleting separators there are exactly
      ten ASCII digits and the first is 6, 7, 8 or 9. */
  lemma ValidIff(number: string)
    ensures IsValidIndianPhoneNumber(number) <==>
      var t := Clean(number);
      && |t| == 10
      && '6' <= t[0] <= '9'
      && forall k :: 0 <= k < 10 ==> IsAsciiDigit(t[k])
  {
    var t := Clean(number);
    MatchFromIff(t, MobilePattern, 0);
    assert |MobilePattern| == 10;
    assert MobilePattern[0] == Range('6', '9');
    assert forall k :: 1 <= k < 10 ==> MobilePattern[k] == Digit;
  }

  /** The screens' placeholder number, matched class by class. */
  lemma PlaceholderMatches()
    ensures MatchFrom("8638144632", MobilePattern, 0)
  {
    var t := "8638144632";
    assert MatchFrom(t, MobilePattern, 10);
    assert MatchFrom(t, MobilePattern, 9);
    assert MatchFrom(t, MobilePattern, 8);
    assert MatchFrom(t, MobilePattern, 7);
    assert MatchFrom(t, MobilePattern, 6);
    assert MatchFrom(t, MobilePattern, 5);
    assert MatchFrom(t, MobilePattern, 4);
    assert MatchFrom(t, MobilePattern, 3);
    assert MatchFrom(t, MobilePattern, 2);
    assert MatchFrom(t, MobilePattern, 1);
  }

  /** The screens' placeholder number is accepted. */
  lemma PlaceholderAccepted()
    ensures IsValidIndianPhoneNumber("8638144632")
  {
    var t := "8638144632";
    assert forall k :: 0 <= k < |t| ==> IsAsciiDigit(t[k]);
    CleanWithoutSeparators(t);
    PlaceholderMatches();
  }

  /** Fewer than ten characters can never be valid; in particular "" is not. */
  lemma TooShortIsInvalid(s: string)
    requires |s| < 10
    ensures !IsValidIndianPhoneNumber(s)
  {
    ValidIff(s);
  }

  /** A number whose first character is kept by cleaning and lies outside
      6 to 9 (another digit, '+', a letter) is invalid. */
  lemma LeadingCharacterIsInvalid(s: string)
    requires |s| > 0 && !IsSeparator(s[0]) && !('6' <= s[0] <= '9')
    ensures !IsValidIndianPhoneNumber(s)
  {
    assert Clean(s)[0] == s[0];
    ValidIff(s);
  }

  /** The empty string and a number with a leading 1 are rejected. */
  lemma RejectedExamples()
    ensures !IsValidIndianPhoneNumber("")
    ensures !IsValidIndianPhoneNumber("1234567890")
  {
    TooShortIsInvalid("");
    LeadingCharacterIsInvalid("1234567890");
  }

  /** Deleting separators commutes with concatenation. */
  lemma {:induction false} CleanAppend(a: string, b: string)
    ensures Clean(a + b) == Clean(a) + Clean(b)
    decreases |a|
  {
    if |a| == 0 {
      assert a + b == b;
    } else {
      assert (a + b)[1..] == a[1..] + b;
      CleanAppend(a[1..], b);
    }
  }

  /** A string without separators is left as it is. */
  lemma {:induction false} CleanWithoutSeparators(s: string)
    requires forall k :: 0 <= k < |s| ==> !IsSeparator(s[k])
    ensures Clean(s) == s
    decreases |s|
  {
    if |s| > 0 {
      CleanWithoutSeparators(s[1..]);
    }
  }

  /** Cleaning is idempotent. */
  lemma CleanIdempotent(s: string)
    ensures Clean(Clean(s)) == Clean(s)
  {
    CleanWithoutSeparators(Clean(s));
  }

  /** Validity is decided by the cleaned text alone. */
  lemma ValidOnCleaned(s: string)
    ensures IsValidIndianPhoneNumber(Clean(s)) == IsValidIndianPhoneNumber(s)
  {
    CleanIdempotent(s);
  }

  /** Inserting or removing one space, tab or hyphen anywhere leaves the
      verdict unchanged. */
  lemma SeparatorInsensitive(a: string, c: char, b: string)
    requires IsSeparator(c)
    ensures IsValidIndianPhoneNumber(a + [c] + b) == IsValidIndianPhoneNumber(a + b)
  {
    assert [c][1..] == [];
    assert Clean([c]) == "";
    CleanAppend(a + [c], b);
    CleanAppend(a, [c]);
    CleanAppend(a, b);
    assert Clean(a + [c]) == Clean(a);
  }

  /** Every character of a valid number is an ASCII digit or a separator;
      in particular it holds no ',' and no ':'. */
  lemma {:induction false} ValidCharset(number: string)
    requires IsValidIndianPhoneNumber(number)
    ensures forall k :: 0 <= k < |number| ==> IsAsciiDigit(number[k]) || IsSeparator(number[k])
  {
    ValidIff(number);
    CleanCharset(number);
  }

  lemma {:induction false} CleanCharset(s: string)
    requires forall k :: 0 <= k < |Clean(s)| ==> IsAsciiDigit(Clean(s)[k])
    ensures forall k :: 0 <= k < |s| ==> IsAsciiDigit(s[k]) || IsSeparator(s[k])
    decreases |s|
  {
    if |s| > 0 {
      var head := if IsSeparator(s[0]) then "" else [s[0]];
      assert Clean(s) == head + Clean(s[1..]);
      assert forall k :: 0 <= k < |Clean(s[1..])| ==> Clean(s[1..])[k] == Clean(s)[k + |head|];
      CleanCharset(s[1..]);
      if !IsSeparator(s[0]) {
        assert Clean(s)[0] == s[0];
      }
      assert forall k :: 1 <= k < |s| ==> s[k] == s[1..][k - 1];
    }
  }
}
