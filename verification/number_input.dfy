/** The number field's input filter, `filter { it.isDigit() }.take(10)`,
    written out identically in both screens. Kotlin's `Char.isDigit()`
    accepts every Unicode decimal digit while the validator's `\d` is ASCII
    only, so the filter can let through text that the validator rejects. */
module NumberInput {
  import opened PhoneNumber

  /** The first code point of every run of ten decimal digits (Unicode
      category Nd) in the Basic Multilingual Plane, Unicode 13: ASCII,
      Arabic-Indic, Extended Arabic-Indic, NKo, Devanagari, Bengali,
      Gurmukhi, Gujarati, Oriya, Tamil, Telugu, Kannada, Malayalam, Sinhala
      Lith, Thai, Lao, Tibetan, Myanmar (two runs), Khmer, Mongolian, Limbu,
      New Tai Lue, Tai Tham (two runs), Balinese, Sundanese, Lepcha, Ol Chiki,
      Vai, Saurashtra, Kayah Li, Javanese, Myanmar Extended-B, Cham,
      Meetei Mayek and Fullwidth. Kotlin's `Char` is a UTF-16 unit, so the
      digits above the BMP arrive as two surrogates, neither a digit. */
  const DigitZeros: seq<int> := [
    0x0030, 0x0660, 0x06F0, 0x07C0, 0x0966, 0x09E6, 0x0A66, 0x0AE6, 0x0B66, 0x0BE6,
    0x0C66, 0x0CE6, 0x0D66, 0x0DE6, 0x0E50, 0x0ED0, 0x0F20, 0x1040, 0x1090, 0x17E0,
    0x1810, 0x1946, 0x19D0, 0x1A80, 0x1A90, 0x1B50, 0x1BB0, 0x1C40, 0x1C50, 0xA620,
    0xA8D0, 0xA900, 0xA9D0, 0xA9F0, 0xAA50, 0xABF0, 0xFF10]

  /** Kotlin's `Char.isDigit()`. */
  predicate IsDigit(c: char) {
    exists k :: 0 <= k < |DigitZeros| && DigitZeros[k] <= c as int < DigitZeros[k] + 10
  }

  /** `filter { it.isDigit() }`. */
  function KeepDigits(s: string): (t: string)
    decreases |s|
    ensures |t| <= |s|
    ensures forall k :: 0 <= k < |t| ==> IsDigit(t[k])
  {
    if |s| == 0 then ""
    else (if IsDigit(s[0]) then [s[0]] else "") + KeepDigits(s[1..])
  }

  /** The number field's `onValueChange`: `filter { it.isDigit() }.take(10)`. */
  function FilterNumberField(s: string): (t: string)
    ensures |t| <= 10
    ensures forall k :: 0 <= k < |t| ==> IsDigit(t[k])
    ensures |t| == (if |KeepDigits(s)| < 10 then |KeepDigits(s)| else 10)
    ensures t == KeepDigits(s)[..|t|]
  {
    var d := KeepDigits(s);
    if |d| <= 10 then d else d[..10]
  }

  /** A single character is kept exactly when it is a digit. */
  lemma KeepDigitsSingle(c: char)
    ensures KeepDigits([c]) == (if IsDigit(c) then [c] else [])
  {
    assert [c][1..] == [];
  }

  /** The filter works character by character: it distributes over
      concatenation, so the digits of the input survive in their order. */
  lemma {:induction false} KeepDigitsAppend(a: string, b: string)
    ensures KeepDigits(a + b) == KeepDigits(a) + KeepDigits(b)
    decreases |a|
  {
    if |a| == 0 {
      assert a + b == b;
    } else {
      assert (a + b)[1..] == a[1..] + b;
      KeepDigitsAppend(a[1..], b);
    }
  }

  /** A character that is not a digit, such as a hyphen or a space, is
      dropped and the text around it closes up: "86-38" becomes "8638". */
  lemma KeepDigitsDropsNonDigit(a: string, c: char, b: string)
    requires !IsDigit(c)
    ensures KeepDigits(a + [c] + b) == KeepDigits(a) + KeepDigits(b)
  {
    KeepDigitsAppend(a + [c], b);
    KeepDigitsAppend(a, [c]);
    KeepDigitsSingle(c);
  }

  lemma {:induction false} KeepDigitsOfDigits(s: string)
    requires forall k :: 0 <= k < |s| ==> IsDigit(s[k])
    ensures KeepDigits(s) == s
    decreases |s|
  {
    if |s| > 0 {
      KeepDigitsOfDigits(s[1..]);
    }
  }

  /** Filtering what the field already holds changes nothing. */
  lemma FilterNumberFieldIdempotent(s: string)
    ensures FilterNumberField(FilterNumberField(s)) == FilterNumberField(s)
  {
    KeepDigitsOfDigits(FilterNumberField(s));
  }

  /** Every ASCII digit passes the filter. */
  lemma AsciiDigitIsDigit(c: char)
    requires IsAsciiDigit(c)
    ensures IsDigit(c)
  {
    assert DigitZeros[0] <= c as int < DigitZeros[0] + 10;
  }

  /** No Kotlin digit is a separator, so the validator deletes nothing from
      filtered input. */
  lemma DigitIsNotSeparator(c: char)
    requires IsDigit(c)
    ensures !IsSeparator(c)
  {
    var k :| 0 <= k < |DigitZeros| && DigitZeros[k] <= c as int < DigitZeros[k] + 10;
    assert DigitZeros[k] >= 0x30;
  }

  /** On filtered input the validator sees the text unchanged: it is valid
      exactly when it is ten ASCII digits starting with 6 to 9. */
  lemma ValidAfterFilter(s: string)
    ensures var t := FilterNumberField(s);
      IsValidIndianPhoneNumber(t) <==>
        |t| == 10 && '6' <= t[0] <= '9' && forall k :: 0 <= k < 10 ==> IsAsciiDigit(t[k])
  {
    var t := FilterNumberField(s);
    forall k | 0 <= k < |t|
      ensures !IsSeparator(t[k])
    {
      DigitIsNotSeparator(t[k]);
    }
    CleanWithoutSeparators(t);
    ValidIff(t);
  }

  /** A 9 followed by nine Devanagari digits passes the filter untouched
      yet fails validation, because the validator's `\d` is ASCII only. */
  lemma NonAsciiDigitsPassFilterButFail()
    ensures var t := "9\U{96E}\U{96D}\U{96C}\U{96B}\U{96A}\U{969}\U{968}\U{967}\U{966}";
      FilterNumberField(t) == t && !IsValidIndianPhoneNumber(t)
  {
    var t := "9\U{96E}\U{96D}\U{96C}\U{96B}\U{96A}\U{969}\U{968}\U{967}\U{966}";
    assert DigitZeros[0] <= t[0] as int < DigitZeros[0] + 10;
    forall k | 1 <= k < |t|
      ensures IsDigit(t[k])
    {
      assert DigitZeros[4] <= t[k] as int < DigitZeros[4] + 10;
    }
    KeepDigitsOfDigits(t);
    ValidAfterFilter(t);
    assert !IsAsciiDigit(t[1]);
  }
}
