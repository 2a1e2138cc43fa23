/**
 * The two string operations the request handlers apply to form input:
 * Python's `str.strip()` with no argument and `str.lower()`.
 */
module Text {

  /** The characters for which Python's `str.isspace()` holds; `str.strip()` removes these. */
  predicate IsWhitespace(c: char) {
    || '\t' <= c <= '\r'             // tab, line feed, vertical tab, form feed, carriage return
    || '\U{1C}' <= c <= '\U{1F}'     // file, group, record and unit separators
    || c == ' '
    || c == '\U{85}'                 // next line
    || c == '\U{A0}'                 // no-break space
    || c == '\U{1680}'
    || '\U{2000}' <= c <= '\U{200A}'
    || c == '\U{2028}' || c == '\U{2029}'
    || c == '\U{202F}' || c == '\U{205F}' || c == '\U{3000}'
  }

  /** Every character of `s` at positions `lo` up to `hi` is whitespace. */
  predicate IsBlankBetween(s: string, lo: int, hi: int) {
    forall k :: lo <= k < hi && 0 <= k < |s| ==> IsWhitespace(s[k])
  }

  /** Every character of `s` is whitespace (vacuously so for the empty string). */
  predicate IsBlank(s: string) {
    IsBlankBetween(s, 0, |s|)
  }

  /** Neither end of `s` is whitespace: what `strip()` leaves behind. */
  predicate HasNoOuterWhitespace(s: string) {
    s == [] || (!IsWhitespace(s[0]) && !IsWhitespace(s[|s| - 1]))
  }

  /** The number of whitespace characters at the start of `s`. */
  function LeadingWhitespace(s: string): (n: nat)
    ensures n <= |s|
    ensures IsBlankBetween(s, 0, n)
    ensures n < |s| ==> !IsWhitespace(s[n])
  {
    if |s| > 0 && IsWhitespace(s[0]) then 1 + LeadingWhitespace(s[1..]) else 0
  }

  /** The number of whitespace characters at the end of `s`. */
  function TrailingWhitespace(s: string): (n: nat)
    ensures n <= |s|
    ensures IsBlankBetween(s, |s| - n, |s|)
    ensures n < |s| ==> !IsWhitespace(s[|s| - 1 - n])
  {
    if |s| > 0 && IsWhitespace(s[|s| - 1]) then 1 + TrailingWhitespace(s[..|s| - 1]) else 0
  }

  /**
   * `s.strip()`: `s` without its leading and trailing whitespace. The result
   * is empty exactly when `s` is blank, and otherwise begins and ends with a
   * non-whitespace character.
   */
  function Strip(s: string): (r: string)
    ensures |r| <= |s|
    ensures HasNoOuterWhitespace(r)
    ensures r == [] <==> IsBlank(s)
  {
    var i := LeadingWhitespace(s);
    var rest := s[i..];
    var t := TrailingWhitespace(rest);
    var r := s[i..|s| - t];
    assert IsBlank(s) ==> i == |s|;
    assert r == [] ==> i == |s| by {
      assert i < |s| ==> rest[0] == s[i];
    }
    assert r != [] ==> r[0] == s[i] && r[|r| - 1] == rest[|rest| - 1 - t];
    r
  }

  /**
   * `r` is what remains of `s` once a blank prefix and a blank suffix are cut
   * off and nothing more can be cut: the meaning of `strip()` stated without
   * saying how it is computed.
   */
  ghost predicate IsStripOf(r: string, s: string) {
    exists i, j :: 0 <= i <= j <= |s| && r == s[i..j] && IsBlankBetween(s, 0, i) && IsBlankBetween(s, j, |s|) && HasNoOuterWhitespace(r)
  }

  /** The leading-whitespace count is the only cut with a blank prefix followed by a non-blank character. */
  lemma LeadingWhitespaceUnique(s: string, n: nat)
    requires n <= |s| && IsBlankBetween(s, 0, n)
    requires n < |s| ==> !IsWhitespace(s[n])
    ensures n == LeadingWhitespace(s)
  {
  }

  /** The trailing-whitespace count is the only cut with a blank suffix preceded by a non-blank character. */
  lemma TrailingWhitespaceUnique(s: string, n: nat)
    requires n <= |s| && IsBlankBetween(s, |s| - n, |s|)
    requires n < |s| ==> !IsWhitespace(s[|s| - 1 - n])
    ensures n == TrailingWhitespace(s)
  {
  }

  /** `Strip` meets that description ... */
  lemma StripIsStripOf(s: string)
    ensures IsStripOf(Strip(s), s)
  {
    var i := LeadingWhitespace(s);
    var t := TrailingWhitespace(s[i..]);
    assert Strip(s) == s[i..|s| - t];
    assert forall k :: |s| - t <= k < |s| ==> s[i..][k - i] == s[k];
  }

  /** ... and it is the only string that does. */
  lemma StripOfIsStrip(r: string, s: string)
    requires IsStripOf(r, s)
    ensures r == Strip(s)
  {
    var i, j :| 0 <= i <= j <= |s| && r == s[i..j] && IsBlankBetween(s, 0, i) && IsBlankBetween(s, j, |s|) && HasNoOuterWhitespace(r);
    if r == [] {
      assert IsBlank(s);
    } else {
      assert r[0] == s[i] && r[|r| - 1] == s[j - 1];
      StripOfCut(s, i, j);
    }
  }

  /** Cutting a blank prefix and a blank suffix off at non-whitespace characters is stripping. */
  lemma StripOfCut(s: string, i: nat, j: nat)
    requires i < j <= |s| && IsBlankBetween(s, 0, i) && IsBlankBetween(s, j, |s|)
    requires !IsWhitespace(s[i]) && !IsWhitespace(s[j - 1])
    ensures Strip(s) == s[i..j]
  {
    LeadingWhitespaceUnique(s, i);
    var rest := s[i..];
    assert IsBlankBetween(rest, j - i, |rest|) by {
      forall k | j - i <= k < |rest| ensures IsWhitespace(rest[k]) {
        assert rest[k] == s[k + i];
      }
    }
    assert rest[j - i - 1] == s[j - 1];
    TrailingWhitespaceUnique(rest, |s| - j);
  }

  /** A text that neither starts nor ends with whitespace is left as it is. */
  lemma StripKeepsStripped(s: string)
    requires HasNoOuterWhitespace(s)
    ensures Strip(s) == s
  {
    assert s == s[0..|s|];
    assert IsStripOf(s, s);
    StripOfIsStrip(s, s);
  }

  /** Stripping twice removes nothing more than stripping once. */
  lemma StripIdempotent(s: string)
    ensures Strip(Strip(s)) == Strip(s)
  {
    StripKeepsStripped(Strip(s));
  }

  /** Python's `str.lower()` on one ASCII character: 'A'..'Z' map to 'a'..'z'. */
  function LowerChar(c: char): char {
    if IsAsciiUpper(c) then (c as int - 'A' as int + 'a' as int) as char else c
  }

  predicate IsAsciiUpper(c: char) {
    'A' <= c <= 'Z'
  }

  /**
   * `s.lower()` restricted to ASCII letters: the result has the same length,
   * agrees with `s` character by character up to case, and holds no upper-case
   * ASCII letter.
   */
  function Lower(s: string): (r: string)
    ensures |r| == |s|
    ensures forall k :: 0 <= k < |s| ==> r[k] == LowerChar(s[k])
    ensures forall k :: 0 <= k < |r| ==> !IsAsciiUpper(r[k])
  {
    if s == [] then [] else [LowerChar(s[0])] + Lower(s[1..])
  }

  /** Lower-casing is idempotent. */
  lemma LowerIdempotent(s: string)
    ensures Lower(Lower(s)) == Lower(s)
  {
  }

  /** A string without upper-case ASCII letters is left as it is. */
  lemma LowerKeepsLowercase(s: string)
    requires forall k :: 0 <= k < |s| ==> !IsAsciiUpper(s[k])
    ensures Lower(s) == s
  {
  }

  /** A word of lower-case ASCII letters is left alone by stripping and lower-casing. */
  lemma LettersAreNormal(word: string)
    requires forall k :: 0 <= k < |word| ==> 'a' <= word[k] <= 'z'
    ensures Lower(Strip(word)) == word
  {
    StripKeepsStripped(word);
    LowerKeepsLowercase(word);
  }
}
