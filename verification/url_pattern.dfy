/**
 * URL_RE of PresentationCreator2, the pattern ^(?i)https?://.+ used with
 * Matcher.matches(): the whole string is "http" or "https" in any letter
 * case, then "://", then at least one character other than a line terminator.
 */
module UrlPattern {
  import opened JavaText

  /** Case folding of the (?i) flag, which without UNICODE_CASE covers US-ASCII letters only. */
  function AsciiLower(c: char): (r: char)
    ensures 'A' <= c <= 'Z' ==> r as int == c as int + 32
    ensures !('A' <= c <= 'Z') ==> r == c
  {
    if 'A' <= c <= 'Z' then (c as int + 32) as char else c
  }

  /** s is scheme (in any ASCII letter case), "://", and one or more characters none of which ends a line. */
  predicate HasScheme(s: string, scheme: string)
  {
    && |s| > |scheme| + 3
    && (forall i :: 0 <= i < |scheme| ==> AsciiLower(s[i]) == scheme[i])
    && s[|scheme|..|scheme| + 3] == "://"
    && (forall i :: |scheme| + 3 <= i < |s| ==> !IsLineTerminator(s[i]))
  }

  /** URL_RE matches the whole of s. */
  predicate IsImageUrl(s: string)
  {
    HasScheme(s, "http") || HasScheme(s, "https")
  }

  /** Upper-case schemes match; a bare scheme, another scheme or a line break in the rest do not. */
  lemma UrlExamples()
    ensures IsImageUrl("HTTPS://a")
    ensures !IsImageUrl("https://")
    ensures !IsImageUrl("ftp://a")
    ensures !IsImageUrl("http://a\nb")
  {
    assert "HTTPS://a"[5..8] == "://";
    assert AsciiLower("ftp://a"[0]) != "http"[0];
    assert AsciiLower("ftp://a"[0]) != "https"[0];
    assert IsLineTerminator("http://a\nb"[8]);
    assert "http://a\nb"[4..7] == "://";
    assert "http://a\nb"[5..8][0] != "://"[0];
    assert "https://"[4..7][0] != "://"[0];
  }
}
