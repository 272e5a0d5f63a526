/**
 * Character-level string comparisons the core relies on: ASCII case folding
 * and the equality case of APR's natural, case-insensitive comparison.
 */
module Text {

  /** apr_isspace on ASCII: space, tab, newline, vertical tab, form feed,
      carriage return. */
  predicate IsSpace(c: char) {
    c == ' ' || c == '\t' || c == '\n' || c == '\U{0B}' || c == '\U{0C}' || c == '\r'
  }

  predicate IsAsciiDigit(c: char) {
    '0' <= c <= '9'
  }

  /** apr_toupper on ASCII letters; every other character is kept. */
  function Upper(c: char): (u: char)
    ensures 'a' <= c <= 'z' ==> 'A' <= u <= 'Z' && u as int - 'A' as int == c as int - 'a' as int
    ensures !('a' <= c <= 'z') ==> u == c
  {
    if 'a' <= c <= 'z' then (c as int - 32) as char else c
  }

  /** Two strings equal up to ASCII case, character by character. */
  predicate EqualsIgnoreCase(a: string, b: string) {
    |a| == |b| && forall i :: 0 <= i < |a| ==> Upper(a[i]) == Upper(b[i])
  }

  /** The string with white space removed and letters folded to upper
      case: what the natural comparison looks at when no digits occur. */
  function Squeeze(s: string): (r: string)
    ensures |r| <= |s|
  {
    if s == [] then []
    else if IsSpace(s[0]) then Squeeze(s[1..])
    else [Upper(s[0])] + Squeeze(s[1..])
  }

  /** The word folded to upper case. */
  function UpperAll(w: string): (u: string)
    ensures |u| == |w|
  {
    seq(|w|, i requires 0 <= i < |w| => Upper(w[i]))
  }

  /** A word of ASCII letters only. */
  predicate Letters(w: string) {
    forall i :: 0 <= i < |w| ==> 'A' <= w[i] <= 'Z' || 'a' <= w[i] <= 'z'
  }

  /**
   * apr_strnatcasecmp(word, s) == 0, for a word without digits or white
   * space: the comparison skips white space on both sides, and as the word
   * has no digits its number rule never applies, so the two agree exactly
   * when s, with white space removed, spells the word up to case.
   */
  predicate NatCaseEqualWord(word: string, s: string) {
    Squeeze(s) == UpperAll(word)
  }

  /** Without white space Squeeze only folds case, character by character. */
  lemma {:induction false} SqueezeNoSpace(w: string)
    requires forall i :: 0 <= i < |w| ==> !IsSpace(w[i])
    ensures |Squeeze(w)| == |w|
    ensures forall i :: 0 <= i < |w| ==> Squeeze(w)[i] == Upper(w[i])
    decreases |w|
  {
    if w != [] {
      SqueezeNoSpace(w[1..]);
      assert Squeeze(w) == [Upper(w[0])] + Squeeze(w[1..]);
    }
  }

  /** Every spelling of a word of letters that differs only in case matches
      it; in particular the word itself does. */
  lemma SpellingMatches(word: string, t: string)
    requires Letters(word) && EqualsIgnoreCase(t, word)
    ensures NatCaseEqualWord(word, t)
  {
    forall i | 0 <= i < |t|
      ensures !IsSpace(t[i])
    {
      assert 'A' <= Upper(word[i]) <= 'Z';
    }
    SqueezeNoSpace(t);
  }
}
