/**
 * The string tests used by the name filter of `GET /items`: `isNullOrBlank` and
 * `contains(filter, ignoreCase = true)`. Case folding is limited to the ASCII letters.
 */
module TextMatch {
  import opened Wrappers

  /** Folds an ASCII upper-case letter to lower case; every other character is kept. */
  function ToLower(c: char): (r: char)
    ensures !('A' <= r <= 'Z')
    ensures ('a' <= r <= 'z') <==> ('a' <= c <= 'z' || 'A' <= c <= 'Z')
    ensures r == c || r as int == c as int + 32
  {
    if 'A' <= c <= 'Z' then (c as int + 32) as char else c
  }

  /** Two characters are equal once case is ignored. */
  predicate CharEqualsIgnoreCase(a: char, b: char)
  {
    ToLower(a) == ToLower(b)
  }

  /** `needle` occurs in `s` at offset `i`, ignoring case. */
  predicate RegionMatches(s: string, i: nat, needle: string)
    requires i + |needle| <= |s|
  {
    forall k | 0 <= k < |needle| :: CharEqualsIgnoreCase(s[i + k], needle[k])
  }

  /** Reference definition: some offset of `s` holds `needle`, ignoring case. */
  ghost predicate OccursIgnoreCase(s: string, needle: string)
  {
    exists i: nat | i + |needle| <= |s| :: RegionMatches(s, i, needle)
  }

  /**
   * The first offset at or after `from` where `needle` occurs in `s` ignoring case,
   * or -1 when there is none (`indexOf(needle, from, ignoreCase = true)`).
   */
  function IndexOfIgnoreCase(s: string, needle: string, from: nat): (r: int)
    decreases |s| - from
    ensures r == -1 || (from <= r && r + |needle| <= |s| && RegionMatches(s, r, needle))
    ensures r >= 0 ==> forall i: nat | from <= i < r :: !RegionMatches(s, i, needle)
    ensures r == -1 ==> forall i: nat | from <= i && i + |needle| <= |s| :: !RegionMatches(s, i, needle)
  {
    if from + |needle| > |s| then -1
    else if RegionMatches(s, from, needle) then from
    else IndexOfIgnoreCase(s, needle, from + 1)
  }

  /**
   * `s.contains(needle, ignoreCase = true)`: the search finds an offset exactly when
   * some offset of `s` holds `needle`.
   */
  predicate ContainsIgnoreCase(s: string, needle: string)
    ensures ContainsIgnoreCase(s, needle) <==> OccursIgnoreCase(s, needle)
  {
    var r := IndexOfIgnoreCase(s, needle, 0);
    assert r >= 0 ==> RegionMatches(s, r, needle);
    r >= 0
  }

  /** Matching ignores the case of the needle's letters. */
  lemma ContainsIgnoresNeedleCase(s: string, needle: string, other: string)
    requires |needle| == |other|
    requires forall k | 0 <= k < |needle| :: ToLower(needle[k]) == ToLower(other[k])
    ensures ContainsIgnoreCase(s, needle) <==> ContainsIgnoreCase(s, other)
  {
    forall i: nat | i + |needle| <= |s|
      ensures RegionMatches(s, i, needle) <==> RegionMatches(s, i, other)
    {
    }
  }

  predicate IsAsciiAlphanumeric(c: char)
  {
    '0' <= c <= '9' || 'a' <= c <= 'z' || 'A' <= c <= 'Z'
  }

  /** The characters `Char.isWhitespace` accepts on the JVM. */
  predicate IsWhitespace(c: char)
  {
    || c == ' ' || c == '\t' || c == '\n' || c == '\U{B}' || c == '\U{C}' || c == '\r'
    || ('\U{1C}' <= c <= '\U{1F}')
    || c == '\U{A0}' || c == '\U{1680}' || ('\U{2000}' <= c <= '\U{200A}')
    || c == '\U{2028}' || c == '\U{2029}' || c == '\U{202F}' || c == '\U{205F}' || c == '\U{3000}'
  }

  /**
   * `isNullOrBlank()`: absent, empty, or only whitespace. An empty filter is blank; a
   * filter holding an ASCII letter or digit is not.
   */
  predicate IsNullOrBlank(s: Option<string>)
    ensures s.Some? && s.value == [] ==> IsNullOrBlank(s)
    ensures s.Some? && (exists k | 0 <= k < |s.value| :: IsAsciiAlphanumeric(s.value[k])) ==> !IsNullOrBlank(s)
  {
    s.None? || forall k | 0 <= k < |s.value| :: IsWhitespace(s.value[k])
  }
}
