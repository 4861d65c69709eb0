/**
  Text handling shared by both quiz bots: the whitespace classes Python's
  `re` module (`\s`) and `str.strip()` use, the `standardize_text`
  normaliser, and Python's substring test `needle in haystack`.
  Strings are sequences of code points.
 */
module Text {

  /** Python's whitespace code points, those for which `str.isspace()`
      holds and which `\s` matches in a `str` pattern, as inclusive ranges. */
  const WhitespaceRanges: seq<(char, char)> := [
    ('\t', '\r'),             // tab, line feed, vertical tab, form feed, carriage return
    ('\U{1C}', ' '),           // file, group, record and unit separators; space
    ('\U{85}', '\U{85}'),      // next line
    ('\U{A0}', '\U{A0}'),      // no-break space
    ('\U{1680}', '\U{1680}'),  // Ogham space mark
    ('\U{2000}', '\U{200A}'),  // en quad .. hair space
    ('\U{2028}', '\U{2029}'),  // line and paragraph separators
    ('\U{202F}', '\U{202F}'),  // narrow no-break space
    ('\U{205F}', '\U{205F}'),  // medium mathematical space
    ('\U{3000}', '\U{3000}')   // ideographic space
  ]

  predicate InRanges(c: char, ranges: seq<(char, char)>) {
    ranges != [] && (ranges[0].0 <= c <= ranges[0].1 || InRanges(c, ranges[1..]))
  }

  predicate IsWhitespace(c: char) {
    InRanges(c, WhitespaceRanges)
  }

  predicate NoWhitespace(s: string) {
    forall i :: 0 <= i < |s| ==> !IsWhitespace(s[i])
  }

  predicate AllWhitespace(s: string) {
    forall i :: 0 <= i < |s| ==> IsWhitespace(s[i])
  }

  /** Neither end of `s` is a whitespace character: what `str.strip()` leaves. */
  predicate Trimmed(s: string) {
    s == [] || (!IsWhitespace(s[0]) && !IsWhitespace(s[|s| - 1]))
  }

  /** `re.sub(r'\s+', '', s)`: every run of whitespace replaced by nothing.
      The result is no longer than `s`, free of whitespace
      (`DeleteWhitespaceClean`), and holds every other character of `s`
      exactly as often as `s` does (`DeleteWhitespaceKeepsCounts`). */
  function DeleteWhitespace(s: string): (r: string)
    ensures |r| <= |s|
  {
    if s == [] then []
    else
      assert s == [s[0]] + s[1..];
      (if IsWhitespace(s[0]) then [] else [s[0]]) + DeleteWhitespace(s[1..])
  }

  lemma {:induction false} DeleteWhitespaceClean(s: string)
    ensures NoWhitespace(DeleteWhitespace(s))
  {
    if s != [] {
      DeleteWhitespaceClean(s[1..]);
    }
  }

  lemma {:induction false} DeleteWhitespaceKeepsCounts(s: string, c: char)
    requires !IsWhitespace(c)
    ensures multiset(DeleteWhitespace(s))[c] == multiset(s)[c]
  {
    if s != [] {
      assert s == [s[0]] + s[1..];
      DeleteWhitespaceKeepsCounts(s[1..], c);
    }
  }

  /** Deleting whitespace works piecewise, so the surviving characters keep
      their relative order. */
  lemma {:induction false} DeleteWhitespaceConcat(a: string, b: string)
    ensures DeleteWhitespace(a + b) == DeleteWhitespace(a) + DeleteWhitespace(b)
  {
    if a == [] {
      assert a + b == b;
    } else {
      assert (a + b)[1..] == a[1..] + b;
      DeleteWhitespaceConcat(a[1..], b);
    }
  }

  /** A string without whitespace is left unchanged. */
  lemma {:induction false} DeleteWhitespaceOfClean(s: string)
    requires NoWhitespace(s)
    ensures DeleteWhitespace(s) == s
  {
    if s != [] {
      DeleteWhitespaceOfClean(s[1..]);
    }
  }

  /** A string made only of whitespace disappears. */
  lemma {:induction false} DeleteWhitespaceOfBlank(s: string)
    requires AllWhitespace(s)
    ensures DeleteWhitespace(s) == []
  {
    if s != [] {
      DeleteWhitespaceOfBlank(s[1..]);
    }
  }

  /** `str.lstrip()`: drop leading whitespace. */
  function StripStart(s: string): (r: string)
    ensures r == [] || !IsWhitespace(r[0])
    ensures |r| <= |s|
  {
    if s != [] && IsWhitespace(s[0]) then StripStart(s[1..]) else s
  }

  /** `str.rstrip()`: drop trailing whitespace. A non-whitespace first
      character is never dropped. */
  function StripEnd(s: string): (r: string)
    ensures r == [] || !IsWhitespace(r[|r| - 1])
    ensures |r| <= |s|
    ensures s != [] && !IsWhitespace(s[0]) ==> r != [] && r[0] == s[0]
  {
    if s != [] && IsWhitespace(s[|s| - 1]) then StripEnd(s[..|s| - 1]) else s
  }

  /** `str.strip()`: the result has whitespace at neither end;
      `StripIsInfix` and `StripKeepsContent` say what it keeps. */
  function Strip(s: string): (r: string)
    ensures Trimmed(r)
  {
    StripEnd(StripStart(s))
  }

  /** What `lstrip` keeps is a suffix of its input ... */
  lemma {:induction false} StripStartIsSuffix(s: string)
    ensures StripStart(s) == s[|s| - |StripStart(s)|..]
  {
    if s != [] && IsWhitespace(s[0]) {
      StripStartIsSuffix(s[1..]);
      assert s[1..][|s| - 1 - |StripStart(s)|..] == s[|s| - |StripStart(s)|..];
    }
  }

  /** ... and what `rstrip` keeps is a prefix of its input. */
  lemma {:induction false} StripEndIsPrefix(s: string)
    ensures StripEnd(s) == s[..|StripEnd(s)|]
  {
    if s != [] && IsWhitespace(s[|s| - 1]) {
      StripEndIsPrefix(s[..|s| - 1]);
    }
  }

  /** What `str.strip()` keeps is a contiguous piece of its input ... */
  lemma StripIsInfix(s: string)
    ensures Contains(s, Strip(s))
  {
    var t := StripStart(s);
    var r := StripEnd(t);
    StripStartIsSuffix(s);
    StripEndIsPrefix(t);
    var a := |s| - |t|;
    assert r == s[a..a + |r|];
    ContainsSlice(s, a, a + |r|);
  }

  lemma {:induction false} StripStartKeepsContent(s: string)
    ensures DeleteWhitespace(StripStart(s)) == DeleteWhitespace(s)
  {
    if s != [] && IsWhitespace(s[0]) {
      StripStartKeepsContent(s[1..]);
    }
  }

  lemma {:induction false} StripEndKeepsContent(s: string)
    ensures DeleteWhitespace(StripEnd(s)) == DeleteWhitespace(s)
  {
    if s != [] && IsWhitespace(s[|s| - 1]) {
      var init, last := s[..|s| - 1], s[|s| - 1..];
      assert s == init + last;
      DeleteWhitespaceConcat(init, last);
      DeleteWhitespaceOfBlank(last);
      StripEndKeepsContent(init);
    }
  }

  /** ... that holds every non-whitespace character of the input. */
  lemma StripKeepsContent(s: string)
    ensures DeleteWhitespace(Strip(s)) == DeleteWhitespace(s)
  {
    StripStartKeepsContent(s);
    StripEndKeepsContent(StripStart(s));
  }

  /** Stripping an already trimmed string changes nothing; in particular
      `Strip` is idempotent. */
  lemma StripTrimmed(s: string)
    requires Trimmed(s)
    ensures Strip(s) == s
  {
    assert StripStart(s) == s;
  }

  lemma StripIdempotent(s: string)
    ensures Strip(Strip(s)) == Strip(s)
  {
    StripTrimmed(Strip(s));
  }

  /** `standardize_text`: `re.sub(r'\s+', '', text).strip()`. The trailing
      strip has nothing left to remove, so the result is exactly `text`
      with all whitespace deleted. */
  function StandardizeText(text: string): (r: string)
    ensures r == DeleteWhitespace(text)
    ensures |r| <= |text|
  {
    var squeezed := DeleteWhitespace(text);
    DeleteWhitespaceClean(text);
    StripTrimmed(squeezed);
    Strip(squeezed)
  }

  /** Stripping first does not change the standard form. */
  lemma StandardizeStrip(text: string)
    ensures StandardizeText(Strip(text)) == StandardizeText(text)
  {
    StripKeepsContent(text);
  }

  lemma StandardizeIdempotent(text: string)
    ensures StandardizeText(StandardizeText(text)) == StandardizeText(text)
  {
    DeleteWhitespaceClean(text);
    DeleteWhitespaceOfClean(StandardizeText(text));
  }

  /** Standardising distributes over concatenation: the characters that
      survive appear in the order they had in the input. */
  lemma StandardizeKeepsOrder(a: string, b: string)
    ensures StandardizeText(a + b) == StandardizeText(a) + StandardizeText(b)
    ensures StandardizeText([]) == []
  {
    DeleteWhitespaceConcat(a, b);
  }

  /** A string with no whitespace is its own standard form. */
  lemma StandardizeClean(text: string)
    requires NoWhitespace(text)
    ensures StandardizeText(text) == text
  {
    DeleteWhitespaceOfClean(text);
  }

  predicate IsPrefix(prefix: string, s: string) {
    |prefix| <= |s| && s[..|prefix|] == prefix
  }

  /** Python's `needle in haystack` on strings. The empty string is in every
      string. */
  predicate Contains(haystack: string, needle: string)
    decreases |haystack|
  {
    IsPrefix(needle, haystack) || (haystack != [] && Contains(haystack[1..], needle))
  }

  /** Every slice of a string is contained in it. */
  lemma {:induction false} ContainsSlice(haystack: string, i: nat, j: nat)
    requires i <= j <= |haystack|
    ensures Contains(haystack, haystack[i..j])
    decreases i
  {
    if i > 0 {
      assert haystack[i..j] == haystack[1..][i - 1..j - 1] by {
        forall k | 0 <= k < j - i
          ensures haystack[i..j][k] == haystack[1..][i - 1..j - 1][k]
        {
        }
      }
      ContainsSlice(haystack[1..], i - 1, j - 1);
    }
  }

  /** Conversely, a contained needle occurs at some position. */
  ghost function ContainsAt(haystack: string, needle: string): (i: nat)
    requires Contains(haystack, needle)
    ensures i + |needle| <= |haystack| && haystack[i..i + |needle|] == needle
    decreases |haystack|
  {
    if IsPrefix(needle, haystack) then 0
    else
      var k := ContainsAt(haystack[1..], needle);
      assert haystack[1..][k..k + |needle|] == haystack[k + 1..k + 1 + |needle|];
      k + 1
  }

  lemma ContainsEmpty(haystack: string)
    ensures Contains(haystack, [])
  {
  }
}
