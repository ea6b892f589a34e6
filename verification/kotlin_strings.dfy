/** The pieces of the Kotlin standard library the screens rely on:
    `String.indexOf`, `split(delimiter)`, `joinToString(separator)`,
    `filter { it.isNotEmpty() }` and `isBlank()`. Strings are sequences of
    characters; every delimiter the app uses is ASCII, so counting code
    points instead of UTF-16 units changes none of these results. */
module KotlinStrings {
  import opened Wrappers

  /** `sep` occurs in `s` starting at index `i`. */
  predicate OccursAt(s: string, sep: string, i: nat) {
    i + |sep| <= |s| && s[i..i + |sep|] == sep
  }

  /** `s.contains(sep)`. */
  predicate Contains(s: string, sep: string) {
    exists i: nat :: i <= |s| && OccursAt(s, sep, i)
  }

  /** No proper prefix of `sep` is also a suffix of it, so two occurrences
      can never overlap. Both separators the app uses, ", " and ": ", have
      this shape. */
  predicate Borderless(sep: string) {
    forall k :: 0 < k < |sep| ==> sep[..k] != sep[|sep| - k..]
  }

  /** `s.indexOf(sep, from)`: the first occurrence of `sep` at or after `from`. */
  function IndexOfFrom(s: string, sep: string, from: nat): (r: Option<nat>)
    decreases |s| - from
    ensures r.Some? ==> from <= r.value && OccursAt(s, sep, r.value)
    ensures r.Some? ==> forall j: nat :: from <= j < r.value ==> !OccursAt(s, sep, j)
    ensures r.None? ==> forall j: nat :: from <= j ==> !OccursAt(s, sep, j)
  {
    if from + |sep| > |s| then None
    else if s[from..from + |sep|] == sep then Some(from)
    else IndexOfFrom(s, sep, from + 1)
  }

  /** An occurrence that ends inside `a` is an occurrence in `a + t` and back. */
  lemma OccursInPrefix(a: string, t: string, sep: string, k: nat)
    requires k + |sep| <= |a|
    ensures OccursAt(a + t, sep, k) <==> OccursAt(a, sep, k)
  {
    assert (a + t)[k..k + |sep|] == a[k..k + |sep|];
  }

  /** A prefix that stops before the first occurrence holds no occurrence. */
  lemma PrefixBeforeFirst(s: string, sep: string, i: nat)
    requires |sep| > 0 && i <= |s|
    requires forall j: nat :: j < i ==> !OccursAt(s, sep, j)
    ensures !Contains(s[..i], sep)
  {
    assert s[..i] + s[i..] == s;
    forall k: nat | k <= i
      ensures !OccursAt(s[..i], sep, k)
    {
      if k + |sep| <= i {
        OccursInPrefix(s[..i], s[i..], sep, k);
      }
    }
  }

  /** `s.split(sep)` with Kotlin's default limit: every piece in order,
      empty leading, inner and trailing pieces included, and `"".split(sep)`
      is `[""]`. Kotlin advances an offset past each match; recursing on the
      remaining suffix yields the same pieces. */
  function Split(s: string, sep: string): (pieces: seq<string>)
    requires |sep| > 0
    decreases |s|
    ensures 1 <= |pieces| <= |s| + 1
  {
    match IndexOfFrom(s, sep, 0)
    case None => [s]
    case Some(i) => [s[..i]] + Split(s[i + |sep|..], sep)
  }

  /** No piece of a split contains the separator. */
  lemma {:induction false} SplitPiecesFree(s: string, sep: string)
    requires |sep| > 0
    ensures forall p :: p in Split(s, sep) ==> !Contains(p, sep)
    decreases |s|
  {
    match IndexOfFrom(s, sep, 0)
    case None =>
    case Some(i) =>
      PrefixBeforeFirst(s, sep, i);
      SplitPiecesFree(s[i + |sep|..], sep);
  }

  /** `xs.joinToString(sep)`; the empty list joins to "". */
  function Join(xs: seq<string>, sep: string): string
    decreases |xs|
  {
    if |xs| == 0 then ""
    else if |xs| == 1 then xs[0]
    else xs[0] + sep + Join(xs[1..], sep)
  }

  /** Joining the pieces of a split restores the string exactly. */
  lemma {:induction false} JoinSplit(s: string, sep: string)
    requires |sep| > 0
    ensures Join(Split(s, sep), sep) == s
    decreases |s|
  {
    match IndexOfFrom(s, sep, 0)
    case None =>
    case Some(i) =>
      var rest := s[i + |sep|..];
      var tail := Split(rest, sep);
      assert Split(s, sep) == [s[..i]] + tail;
      JoinSplit(rest, sep);
      assert Join([s[..i]] + tail, sep) == s[..i] + sep + Join(tail, sep) by {
        assert ([s[..i]] + tail)[1..] == tail;
      }
      assert s == s[..i] + sep + rest;
  }

  /** A match of a borderless separator cannot straddle the end of `a`
      when `sep` itself follows `a`. */
  lemma NoStraddle(a: string, sep: string, c: string, j: nat)
    requires Borderless(sep)
    requires j < |a| < j + |sep|
    ensures !OccursAt(a + sep + c, sep, j)
  {
    var s := a + sep + c;
    var k := |a| - j;
    var m := |sep| - k;
    var w := s[j..j + |sep|];
    assert w[k..] == sep[..m];
    assert sep[..m] != sep[k..];
  }

  /** With a borderless separator, the first occurrence in `a + sep + c`
      is the inserted one when `a` holds none. */
  lemma FirstAtJunction(a: string, sep: string, c: string)
    requires |sep| > 0 && Borderless(sep)
    requires !Contains(a, sep)
    ensures IndexOfFrom(a + sep + c, sep, 0) == Some(|a|)
  {
    var s := a + sep + c;
    assert s == a + (sep + c);
    assert s[|a|..|a| + |sep|] == sep;
    assert OccursAt(s, sep, |a|);
    forall j: nat | j < |a|
      ensures !OccursAt(s, sep, j)
    {
      if j + |sep| <= |a| {
        OccursInPrefix(a, sep + c, sep, j);
      } else {
        NoStraddle(a, sep, c, j);
      }
    }
  }

  /** With a borderless separator, a first occurrence inside `a` stays the
      first occurrence after appending `sep + c`. */
  lemma FirstInPrefix(a: string, sep: string, c: string, i: nat)
    requires |sep| > 0
    requires IndexOfFrom(a, sep, 0) == Some(i)
    ensures IndexOfFrom(a + sep + c, sep, 0) == Some(i)
  {
    var s := a + sep + c;
    assert s == a + (sep + c);
    OccursInPrefix(a, sep + c, sep, i);
    forall j: nat | j < i
      ensures !OccursAt(s, sep, j)
    {
      OccursInPrefix(a, sep + c, sep, j);
    }
  }

  /** One step of `Split` at a known first occurrence. */
  lemma SplitAt(s: string, sep: string, i: nat)
    requires |sep| > 0
    ensures IndexOfFrom(s, sep, 0) == Some(i) ==>
      Split(s, sep) == [s[..i]] + Split(s[i + |sep|..], sep)
  {
  }

  /** The base case of `SplitAppend`: `a` holds no separator. */
  lemma SplitAppendBase(a: string, sep: string, c: string)
    requires |sep| > 0 && Borderless(sep)
    requires IndexOfFrom(a, sep, 0).None?
    ensures Split(a + sep + c, sep) == [a] + Split(c, sep)
  {
    var s := a + sep + c;
    assert !Contains(a, sep);
    FirstAtJunction(a, sep, c);
    SplitAt(s, sep, |a|);
    assert s[..|a|] == a;
    assert s[|a| + |sep|..] == c;
  }

  /** The inductive step of `SplitAppend`: `a` holds a first occurrence at
      `i`, and the claim holds for the rest of `a` after it. */
  lemma SplitAppendStep(a: string, sep: string, c: string, i: nat)
    requires |sep| > 0 && Borderless(sep)
    requires IndexOfFrom(a, sep, 0) == Some(i)
    requires Split(a[i + |sep|..] + sep + c, sep) == Split(a[i + |sep|..], sep) + Split(c, sep)
    ensures Split(a + sep + c, sep) == Split(a, sep) + Split(c, sep)
  {
    FirstInPrefix(a, sep, c, i);
    SliceAround(a, sep, c, i);
    SplitAt(a + sep + c, sep, i);
    SplitAt(a, sep, i);
    ConcatAssoc([a[..i]], Split(a[i + |sep|..], sep), Split(c, sep));
  }

  lemma ConcatAssoc<T>(x: seq<T>, y: seq<T>, z: seq<T>)
    ensures x + (y + z) == (x + y) + z
  {
  }

  /** Cutting `a + sep + c` around an occurrence inside `a`. */
  lemma SliceAround(a: string, sep: string, c: string, i: nat)
    requires i + |sep| <= |a|
    ensures (a + sep + c)[..i] == a[..i]
    ensures (a + sep + c)[i + |sep|..] == a[i + |sep|..] + sep + c
  {
  }

  /** Splitting distributes over a join point. */
  lemma {:induction false} SplitAppend(a: string, sep: string, c: string)
    requires |sep| > 0 && Borderless(sep)
    ensures Split(a + sep + c, sep) == Split(a, sep) + Split(c, sep)
    decreases |a|
  {
    match IndexOfFrom(a, sep, 0)
    case None =>
      SplitAppendBase(a, sep, c);
    case Some(i) =>
      SplitAppend(a[i + |sep|..], sep, c);
      SplitAppendStep(a, sep, c, i);
  }

  /** A string without the separator splits into itself alone. */
  lemma SplitNoSeparator(s: string, sep: string)
    requires |sep| > 0 && !Contains(s, sep)
    ensures Split(s, sep) == [s]
  {
    match IndexOfFrom(s, sep, 0)
    case None =>
    case Some(i) =>
      assert false;
  }

  /** Splitting a join gives the list back, provided no element holds the
      separator. Empty elements survive (the list is non-empty). */
  lemma {:induction false} SplitJoin(xs: seq<string>, sep: string)
    requires |sep| > 0 && Borderless(sep) && |xs| > 0
    requires forall x :: x in xs ==> !Contains(x, sep)
    ensures Split(Join(xs, sep), sep) == xs
    decreases |xs|
  {
    if |xs| == 1 {
      SplitNoSeparator(xs[0], sep);
    } else {
      SplitNoSeparator(xs[0], sep);
      SplitAppend(xs[0], sep, Join(xs[1..], sep));
      SplitJoin(xs[1..], sep);
      assert xs == [xs[0]] + xs[1..];
    }
  }

  /** A split yields two or more pieces exactly when the delimiter occurs. */
  lemma SplitManyIff(s: string, sep: string)
    requires |sep| > 0
    ensures |Split(s, sep)| >= 2 <==> Contains(s, sep)
  {
    match IndexOfFrom(s, sep, 0)
    case None =>
    case Some(i) =>
      assert OccursAt(s, sep, i);
  }

  /** The first piece is the text before the first occurrence of the
      delimiter, or the whole string when there is none. */
  lemma SplitFirstPiece(s: string, sep: string)
    requires |sep| > 0
    ensures |Split(s, sep)[0]| <= |s| && s[..|Split(s, sep)[0]|] == Split(s, sep)[0]
    ensures !Contains(Split(s, sep)[0], sep)
    ensures Contains(s, sep) ==> OccursAt(s, sep, |Split(s, sep)[0]|)
    ensures !Contains(s, sep) ==> Split(s, sep)[0] == s
  {
    match IndexOfFrom(s, sep, 0)
    case None =>
    case Some(i) =>
      PrefixBeforeFirst(s, sep, i);
  }

  /** Joining three or more strings puts the delimiter after each of the
      first two. */
  lemma JoinAtLeastThree(xs: seq<string>, sep: string)
    requires |xs| >= 3
    ensures Join(xs, sep) == xs[0] + sep + xs[1] + sep + Join(xs[2..], sep)
    ensures |Join(xs, sep)| >= |xs[0]| + |sep| + |xs[1]| + |sep|
  {
    var rest := xs[1..];
    assert rest[0] == xs[1] && |rest| >= 2 && rest[1..] == xs[2..];
    var tailJoin := Join(xs[2..], sep);
    assert Join(rest, sep) == xs[1] + sep + tailJoin;
    assert Join(xs, sep) == xs[0] + sep + Join(rest, sep);
    ConcatAssoc(xs[0] + sep, xs[1] + sep, tailJoin);
  }

  /** `filter { it.isNotEmpty() }`: keeps the non-empty strings in order. */
  function NonEmpty(xs: seq<string>): (ys: seq<string>)
    decreases |xs|
    ensures |ys| <= |xs|
    ensures forall y :: y in ys ==> y != "" && y in xs
    ensures (forall k :: 0 <= k < |xs| ==> xs[k] != "") ==> ys == xs
  {
    if |xs| == 0 then []
    else
      (if xs[0] == "" then [] else [xs[0]]) + NonEmpty(xs[1..])
  }

  /** Filtering distributes over concatenation. */
  lemma {:induction false} NonEmptyAppend(xs: seq<string>, ys: seq<string>)
    ensures NonEmpty(xs + ys) == NonEmpty(xs) + NonEmpty(ys)
    decreases |xs|
  {
    if |xs| == 0 {
      assert xs + ys == ys;
    } else {
      assert (xs + ys)[1..] == xs[1..] + ys;
      NonEmptyAppend(xs[1..], ys);
    }
  }

  /** Kotlin's `Char.isWhitespace()` on the JVM: `Character.isWhitespace`
      (tab, line feed, vertical tab, form feed, carriage return, the four
      information separators and the breaking spaces) together with
      `Character.isSpaceChar` (every space, line and paragraph separator). */
  predicate IsWhitespace(c: char) {
    || c == '\t' || c == '\n' || c == '\U{B}' || c == '\U{C}' || c == '\r'
    || ('\U{1C}' <= c <= '\U{1F}')
    || c == ' ' || c == '\U{A0}' || c == '\U{1680}'
    || ('\U{2000}' <= c <= '\U{200A}')
    || c == '\U{2028}' || c == '\U{2029}' || c == '\U{202F}' || c == '\U{205F}' || c == '\U{3000}'
  }

  /** `isBlank()`: empty, or whitespace only. */
  predicate IsBlank(s: string) {
    forall k :: 0 <= k < |s| ==> IsWhitespace(s[k])
  }
}
