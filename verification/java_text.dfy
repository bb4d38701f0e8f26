/**
 * Java's String and regular-expression semantics, as far as the two programs
 * use them: trim/strip/isBlank, the ASCII regex classes \s and \d, indexOf,
 * startsWith, replace, split, decimal rendering of integers and lower-casing.
 */
module JavaText {

  // ---------------------------------------------------------------------
  // Character classes
  // ---------------------------------------------------------------------

  /** Characters removed by String.trim(): every code unit up to U+0020. */
  predicate IsTrimmable(c: char) { c <= ' ' }

  /** Character.isWhitespace, which String.strip() and String.isBlank() use. */
  predicate IsWhitespace(c: char) {
    || ('\t' <= c <= '\r')
    || ('\U{1C}' <= c <= ' ')
    || c == '\U{1680}'
    || ('\U{2000}' <= c <= '\U{2006}')
    || ('\U{2008}' <= c <= '\U{200A}')
    || c == '\U{2028}' || c == '\U{2029}' || c == '\U{205F}' || c == '\U{3000}'
  }

  /** The regex class \s without UNICODE_CHARACTER_CLASS: [ \t\n\x0B\f\r]. */
  predicate IsRegexSpace(c: char) { c == ' ' || ('\t' <= c <= '\r') }

  /** The regex class \d without UNICODE_CHARACTER_CLASS: [0-9]. */
  predicate IsAsciiDigit(c: char) { '0' <= c <= '9' }

  /** Line terminators of java.util.regex: '.' never matches them and '$' may stop before a final one. */
  predicate IsLineTerminator(c: char) {
    c == '\n' || c == '\r' || c == '\U{85}' || c == '\U{2028}' || c == '\U{2029}'
  }

  /** The characters matched by the regex \R (a "\r\n" pair counts as one break there). */
  predicate IsLinebreak(c: char) {
    ('\n' <= c <= '\r') || c == '\U{85}' || c == '\U{2028}' || c == '\U{2029}'
  }

  lemma RegexSpaceIsTrimmable(c: char)
    ensures IsRegexSpace(c) ==> IsTrimmable(c) && IsWhitespace(c)
  {}

  // ---------------------------------------------------------------------
  // trim / strip / isBlank
  // ---------------------------------------------------------------------

  /** Length of the longest prefix of s whose characters all satisfy p. */
  function LeadingCount(s: string, p: char -> bool): (n: nat)
    ensures n <= |s|
    ensures forall i :: 0 <= i < n ==> p(s[i])
    ensures n < |s| ==> !p(s[n])
  {
    if s == [] || !p(s[0]) then 0 else 1 + LeadingCount(s[1..], p)
  }

  /** Length of the longest prefix of s none of whose characters satisfies p. */
  function CountUntil(s: string, p: char -> bool): (n: nat)
    ensures n <= |s|
    ensures forall i :: 0 <= i < n ==> !p(s[i])
    ensures n < |s| ==> p(s[n])
  {
    if s == [] || p(s[0]) then 0 else 1 + CountUntil(s[1..], p)
  }

  /** Length of the longest suffix of s whose characters all satisfy p. */
  function TrailingCount(s: string, p: char -> bool): (n: nat)
    ensures n <= |s|
    ensures forall i :: |s| - n <= i < |s| ==> p(s[i])
    ensures n < |s| ==> !p(s[|s| - n - 1])
  {
    if s == [] || !p(s[|s| - 1]) then 0 else 1 + TrailingCount(s[..|s| - 1], p)
  }

  /** s without its longest p-prefix and its longest p-suffix. */
  function StripBy(s: string, p: char -> bool): (r: string)
    ensures r == [] || (!p(r[0]) && !p(r[|r| - 1]))
  {
    var a := LeadingCount(s, p);
    var t := s[a..];
    var b := TrailingCount(t, p);
    assert t[..|t| - b] == s[a..a + (|t| - b)];
    t[..|t| - b]
  }

  /** String.trim(). */
  function Trim(s: string): (r: string)
    ensures r == [] || (!IsTrimmable(r[0]) && !IsTrimmable(r[|r| - 1]))
  {
    StripBy(s, IsTrimmable)
  }

  /** String.strip(). */
  function Strip(s: string): (r: string)
    ensures r == [] || (!IsWhitespace(r[0]) && !IsWhitespace(r[|r| - 1]))
    ensures r == [] <==> IsBlank(s)
  {
    StripByEmpty(s, IsWhitespace);
    StripBy(s, IsWhitespace)
  }

  /** Stripping leaves nothing exactly when every character satisfies p. */
  lemma StripByEmpty(s: string, p: char -> bool)
    ensures StripBy(s, p) == [] <==> forall i :: 0 <= i < |s| ==> p(s[i])
  {
    var a := LeadingCount(s, p);
    if a < |s| {
      var t := s[a..];
      assert t[0] == s[a];
      assert TrailingCount(t, p) < |t|;
    }
  }

  /** String.isBlank(): empty or whitespace only. */
  predicate IsBlank(s: string) {
    forall i :: 0 <= i < |s| ==> IsWhitespace(s[i])
  }

  lemma {:induction false} LeadingCountPrefix(ws: string, x: string, p: char -> bool)
    requires forall i :: 0 <= i < |ws| ==> p(ws[i])
    ensures LeadingCount(ws + x, p) == |ws| + LeadingCount(x, p)
  {
    if ws == [] {
      assert ws + x == x;
    } else {
      assert (ws + x)[1..] == ws[1..] + x;
      LeadingCountPrefix(ws[1..], x, p);
    }
  }

  lemma {:induction false} LeadingCountSuffix(x: string, ws: string, p: char -> bool)
    requires LeadingCount(x, p) < |x|
    ensures LeadingCount(x + ws, p) == LeadingCount(x, p)
  {
    if p(x[0]) {
      assert (x + ws)[1..] == x[1..] + ws;
      LeadingCountSuffix(x[1..], ws, p);
    }
  }

  lemma {:induction false} TrailingCountSuffix(x: string, ws: string, p: char -> bool)
    requires forall i :: 0 <= i < |ws| ==> p(ws[i])
    ensures TrailingCount(x + ws, p) == TrailingCount(x, p) + |ws|
    decreases |ws|
  {
    if ws == [] {
      assert x + ws == x;
    } else {
      assert (x + ws)[..|x + ws| - 1] == x + ws[..|ws| - 1];
      TrailingCountSuffix(x, ws[..|ws| - 1], p);
    }
  }

  /** Leading characters that trim() removes anyway make no difference to it. */
  lemma TrimPrefix(ws: string, x: string)
    requires forall i :: 0 <= i < |ws| ==> IsTrimmable(ws[i])
    ensures Trim(ws + x) == Trim(x)
  {
    StripByPrefix(ws, x, IsTrimmable);
  }

  /** Trailing characters that trim() removes anyway make no difference to it. */
  lemma TrimSuffix(x: string, ws: string)
    requires forall i :: 0 <= i < |ws| ==> IsTrimmable(ws[i])
    ensures Trim(x + ws) == Trim(x)
  {
    StripBySuffix(x, ws, IsTrimmable);
  }

  /** A p-prefix makes no difference to stripping p. */
  lemma StripByPrefix(ws: string, x: string, p: char -> bool)
    requires forall i :: 0 <= i < |ws| ==> p(ws[i])
    ensures StripBy(ws + x, p) == StripBy(x, p)
  {
    LeadingCountPrefix(ws, x, p);
    DropAppend(ws, x, LeadingCount(x, p));
  }

  /** A p-suffix makes no difference to stripping p. */
  lemma StripBySuffix(x: string, ws: string, p: char -> bool)
    requires forall i :: 0 <= i < |ws| ==> p(ws[i])
    ensures StripBy(x + ws, p) == StripBy(x, p)
  {
    var a := LeadingCount(x, p);
    if a == |x| {
      assert forall i :: 0 <= i < |x + ws| ==> p((x + ws)[i]);
      StripByEmpty(x + ws, p);
      StripByEmpty(x, p);
    } else {
      LeadingCountSuffix(x, ws, p);
      var t := x[a..];
      DropInside(x, ws, a);
      TrailingCountSuffix(t, ws, p);
      var b := TrailingCount(t, p);
      TakeInside(t, ws, |t| - b);
    }
  }

  /** A string that neither starts nor ends with a trimmable character is left alone by trim(). */
  lemma TrimNoop(r: string)
    requires r == [] || (!IsTrimmable(r[0]) && !IsTrimmable(r[|r| - 1]))
    ensures Trim(r) == r
  {
    if r != [] {
      assert LeadingCount(r, IsTrimmable) == 0;
      assert r[0..] == r;
      assert TrailingCount(r, IsTrimmable) == 0;
      assert r[..|r| - 0] == r;
    }
  }

  /** trim() is idempotent. */
  lemma TrimIdempotent(s: string)
    ensures Trim(Trim(s)) == Trim(s)
  {
    TrimNoop(Trim(s));
  }

  /** trim() returns a slice of its argument. */
  lemma TrimSlice(s: string)
    ensures exists a, b :: 0 <= a <= b <= |s| && Trim(s) == s[a..b]
  {
    var a := LeadingCount(s, IsTrimmable);
    var t := s[a..];
    var b := TrailingCount(t, IsTrimmable);
    assert Trim(s) == s[a..a + (|t| - b)];
  }

  // ---------------------------------------------------------------------
  // Searching
  // ---------------------------------------------------------------------

  /** String.startsWith. */
  predicate StartsWith(s: string, prefix: string) {
    |prefix| <= |s| && s[..|prefix|] == prefix
  }

  /** String.endsWith. */
  predicate EndsWith(s: string, suffix: string) {
    |suffix| <= |s| && s[|s| - |suffix|..] == suffix
  }

  /** A string ending in a suffix has the suffix's characters at the same distances from its end. */
  lemma EndsWithAt(s: string, suffix: string, k: nat)
    requires EndsWith(s, suffix) && k < |suffix|
    ensures s[|s| - 1 - k] == suffix[|suffix| - 1 - k]
  {
    assert s[|s| - 1 - k] == s[|s| - |suffix|..][|suffix| - 1 - k];
  }

  /** part occurs in s starting at position i. */
  predicate OccursAt(s: string, part: string, i: int) {
    0 <= i <= |s| - |part| && s[i..i + |part|] == part
  }

  /** String.contains. */
  predicate Contains(s: string, part: string) {
    exists i :: 0 <= i <= |s| - |part| && OccursAt(s, part, i)
  }

  /** String.indexOf(char): the first position of c, or -1. */
  function IndexOf(s: string, c: char): (r: int)
    ensures -1 <= r < |s|
    ensures r >= 0 ==> s[r] == c
    ensures forall j :: 0 <= j < |s| && (r == -1 || j < r) ==> s[j] != c
  {
    if s == [] then -1
    else if s[0] == c then 0
    else
      var k := IndexOf(s[1..], c);
      if k < 0 then -1 else k + 1
  }

  /** String.lastIndexOf(char): the last position of c, or -1. */
  function LastIndexOf(s: string, c: char): (r: int)
    ensures -1 <= r < |s|
    ensures r >= 0 ==> s[r] == c
    ensures forall j :: r < j < |s| ==> s[j] != c
  {
    if s == [] then -1
    else if s[|s| - 1] == c then |s| - 1
    else LastIndexOf(s[..|s| - 1], c)
  }

  /** String.replace(CharSequence, CharSequence): every occurrence, scanning left to right. */
  function Replace(s: string, target: string, replacement: string): (r: string)
    requires |target| > 0
    decreases |s|
  {
    if |s| < |target| then s
    else if s[..|target|] == target then replacement + Replace(s[|target|..], target, replacement)
    else [s[0]] + Replace(s[1..], target, replacement)
  }

  /** Without an occurrence of the target, nothing is replaced. */
  lemma {:induction false} ReplaceAbsent(s: string, target: string, replacement: string)
    requires |target| > 0 && !Contains(s, target)
    ensures Replace(s, target, replacement) == s
    decreases |s|
  {
    if |s| >= |target| {
      assert s[..|target|] != target by { assert !OccursAt(s, target, 0); }
      ContainsTail(s, target);
      ReplaceAbsent(s[1..], target, replacement);
      assert s == [s[0]] + s[1..];
    }
  }

  /** Where no occurrence starts at the front, the first character is kept and the rest replaced in. */
  lemma ReplaceStep(s: string, target: string, replacement: string)
    requires |target| > 0 && s != []
    requires |s| < |target| || s[..|target|] != target
    ensures Replace(s, target, replacement) == [s[0]] + Replace(s[1..], target, replacement)
  {
    if |s| < |target| {
      assert s == [s[0]] + s[1..];
    }
  }

  /** A front stretch where the target's first character does not occur is kept as it is. */
  lemma {:induction false} ReplaceKeepsPlain(s: string, target: string, replacement: string, k: nat)
    requires |target| > 0 && k <= |s|
    requires forall j :: 0 <= j < k ==> s[j] != target[0]
    ensures Replace(s, target, replacement) == s[..k] + Replace(s[k..], target, replacement)
  {
    if k > 0 {
      var t := s[1..];
      assert |s| < |target| || s[..|target|][0] != target[0];
      ReplaceStep(s, target, replacement);
      ReplaceKeepsPlain(t, target, replacement, k - 1);
      assert t[k - 1..] == s[k..];
      assert s[..k] == [s[0]] + t[..k - 1];
      AppendAssoc([s[0]], t[..k - 1], Replace(s[k..], target, replacement));
    } else {
      assert s[..0] == [] && s[0..] == s;
    }
  }

  /** When the replacement starts like the target, the result starts like the input. */
  lemma ReplaceHead(s: string, target: string, replacement: string)
    requires |target| > 0 && s != [] && replacement != [] && replacement[0] == target[0]
    ensures Replace(s, target, replacement) != [] && Replace(s, target, replacement)[0] == s[0]
  {
    if |s| >= |target| && s[..|target|] == target {
      assert s[0] == s[..|target|][0];
    }
  }

  /** An occurrence in the tail of s is an occurrence in s. */
  lemma ContainsTail(s: string, part: string)
    requires s != []
    ensures Contains(s[1..], part) ==> Contains(s, part)
  {
    if Contains(s[1..], part) {
      var i :| 0 <= i <= |s[1..]| - |part| && OccursAt(s[1..], part, i);
      assert s[i + 1..i + 1 + |part|] == s[1..][i..i + |part|];
      assert OccursAt(s, part, i + 1);
    }
  }

  // ---------------------------------------------------------------------
  // Splitting
  // ---------------------------------------------------------------------

  /** The pieces of s between the characters that satisfy p, empty pieces included. */
  function SplitWhere(s: string, p: char -> bool): (r: seq<string>)
    ensures |r| >= 1
    ensures forall k, i :: 0 <= k < |r| && 0 <= i < |r[k]| ==> !p(r[k][i])
    decreases |s|
  {
    var n := CountUntil(s, p);
    if n == |s| then [s] else [s[..n]] + SplitWhere(s[n + 1..], p)
  }

  /** The non-empty strings of xs, in order. */
  function NonEmpty(xs: seq<string>): (r: seq<string>)
    ensures |r| <= |xs|
    ensures forall k :: 0 <= k < |r| ==> r[k] != []
  {
    if xs == [] then []
    else if xs[0] == [] then NonEmpty(xs[1..])
    else [xs[0]] + NonEmpty(xs[1..])
  }

  /** The strings kept are exactly the non-empty ones, each taken from some position of xs. */
  lemma {:induction false} NonEmptyMembers(xs: seq<string>)
    ensures forall x :: x in NonEmpty(xs) <==> x in xs && x != []
    ensures forall k :: 0 <= k < |NonEmpty(xs)| ==> exists j :: 0 <= j < |xs| && NonEmpty(xs)[k] == xs[j]
  {
    if xs != [] {
      var rest := NonEmpty(xs[1..]);
      NonEmptyMembers(xs[1..]);
      assert xs == [xs[0]] + xs[1..];
      if xs[0] != [] {
        var r := NonEmpty(xs);
        assert r == [xs[0]] + rest;
        forall k | 0 <= k < |r|
          ensures exists j :: 0 <= j < |xs| && r[k] == xs[j]
        {
          if k == 0 {
            assert r[0] == xs[0];
          } else {
            assert r[k] == rest[k - 1];
            var j :| 0 <= j < |xs[1..]| && rest[k - 1] == xs[1..][j];
            assert r[k] == xs[j + 1];
          }
        }
      } else {
        forall k | 0 <= k < |rest|
          ensures exists j :: 0 <= j < |xs| && rest[k] == xs[j]
        {
          var j :| 0 <= j < |xs[1..]| && rest[k] == xs[1..][j];
          assert rest[k] == xs[j + 1];
        }
      }
    }
  }

  /** Appending is associative (stated once so that callers need no extensionality proof). */
  lemma AppendAssoc<T>(a: seq<T>, b: seq<T>, c: seq<T>)
    ensures a + (b + c) == (a + b) + c
  {}

  /** Appending nothing changes nothing. */
  lemma AppendNil<T>(a: seq<T>)
    ensures a + [] == a
  {}

  /** A prefix reaching into the second part of a concatenation. */
  lemma TakeAppend<T>(a: seq<T>, b: seq<T>, k: nat)
    requires k <= |b|
    ensures (a + b)[..|a| + k] == a + b[..k]
  {}

  /** A suffix starting in the second part of a concatenation. */
  lemma DropAppend<T>(a: seq<T>, b: seq<T>, k: nat)
    requires k <= |b|
    ensures (a + b)[|a| + k..] == b[k..]
  {}

  /** A suffix starting inside the first part of a concatenation. */
  lemma DropInside<T>(a: seq<T>, b: seq<T>, k: nat)
    requires k <= |a|
    ensures (a + b)[k..] == a[k..] + b
  {}

  /** A prefix ending inside the first part of a concatenation. */
  lemma TakeInside<T>(a: seq<T>, b: seq<T>, k: nat)
    requires k <= |a|
    ensures (a + b)[..k] == a[..k]
  {}

  /** A sequence built from a head and a tail gives them back. */
  lemma HeadTail<T>(x: T, t: seq<T>)
    ensures ([x] + t)[0] == x && ([x] + t)[1..] == t
  {}

  /** Stream.map: f applied to every element, in order. */
  function MapEach<A, B>(xs: seq<A>, f: A -> B): (r: seq<B>)
    ensures |r| == |xs|
  {
    if xs == [] then [] else MapEach(xs[..|xs| - 1], f) + [f(xs[|xs| - 1])]
  }

  /** Mapping keeps the count and the order: element i of the result is f of element i. */
  lemma {:induction false} MapEachAt<A, B>(xs: seq<A>, f: A -> B)
    ensures |MapEach(xs, f)| == |xs|
    ensures forall i :: 0 <= i < |xs| ==> MapEach(xs, f)[i] == f(xs[i])
  {
    if xs != [] {
      var init := xs[..|xs| - 1];
      MapEachAt(init, f);
      assert forall i :: 0 <= i < |init| ==> xs[i] == init[i];
    }
  }

  /** Trims every string of xs. */
  function TrimAll(xs: seq<string>): (r: seq<string>)
    ensures |r| == |xs|
    ensures forall k :: 0 <= k < |r| ==> r[k] == Trim(xs[k])
  {
    if xs == [] then [] else [Trim(xs[0])] + TrimAll(xs[1..])
  }

  /** String.split(String.valueOf(sep)): trailing empty pieces are dropped when sep occurs. */
  function SplitOnChar(s: string, sep: char): (r: seq<string>)
    ensures forall k, i :: 0 <= k < |r| && 0 <= i < |r[k]| ==> r[k][i] != sep
    ensures IndexOf(s, sep) < 0 ==> r == [s]
  {
    var pieces := SplitWhere(s, c => c == sep);
    if IndexOf(s, sep) < 0 then [s] else DropTrailingEmpty(pieces)
  }

  /** xs without its trailing run of empty strings. */
  function DropTrailingEmpty(xs: seq<string>): (r: seq<string>)
    ensures r <= xs
    ensures r == [] || r[|r| - 1] != []
  {
    if xs == [] || xs[|xs| - 1] != [] then xs else DropTrailingEmpty(xs[..|xs| - 1])
  }

  /** text.split("\\s+") applied to a trimmed text: [""] for "", otherwise the maximal runs of non-\s characters. */
  function SplitWords(t: string): (r: seq<string>)
    ensures |r| >= 1 || t != []
    ensures forall k, i :: 0 <= k < |r| && 0 <= i < |r[k]| ==> !IsRegexSpace(r[k][i])
  {
    if t == [] then [""]
    else
      var pieces := SplitWhere(t, IsRegexSpace);
      var r := NonEmpty(pieces);
      NonEmptyMembers(pieces);
      assert forall k, i :: 0 <= k < |r| && 0 <= i < |r[k]| ==> !IsRegexSpace(r[k][i]) by {
        forall k, i | 0 <= k < |r| && 0 <= i < |r[k]| ensures !IsRegexSpace(r[k][i]) {
          var j :| 0 <= j < |pieces| && r[k] == pieces[j];
          assert r[k][i] == pieces[j][i];
        }
      }
      r
  }

  // ---------------------------------------------------------------------
  // Numbers and case
  // ---------------------------------------------------------------------

  /** The value of a string of ASCII decimal digits. */
  function DecimalValue(s: string): nat
    requires forall i :: 0 <= i < |s| ==> IsAsciiDigit(s[i])
  {
    if s == [] then 0
    else
      assert IsAsciiDigit(s[|s| - 1]);
      10 * DecimalValue(s[..|s| - 1]) + (s[|s| - 1] as int - '0' as int)
  }

  /** Decimal rendering of a non-negative int, as string concatenation does it. */
  function NatToDecimal(n: nat): (s: string)
    ensures |s| >= 1 && (|s| > 1 ==> s[0] != '0')
    ensures forall i :: 0 <= i < |s| ==> IsAsciiDigit(s[i])
    ensures DecimalValue(s) == n
  {
    var last := [('0' as int + n % 10) as char];
    if n < 10 then last
    else
      var prefix := NatToDecimal(n / 10);
      assert (prefix + last)[..|prefix + last| - 1] == prefix;
      prefix + last
  }

  /** String.toLowerCase(Locale.ROOT) on one character, for Latin and Cyrillic letters. */
  function ToLowerChar(c: char): (r: char)
    ensures 'A' <= c <= 'Z' ==> 'a' <= r <= 'z'
    ensures !('A' <= c <= 'Z') && !('\U{400}' <= c <= '\U{42F}') ==> r == c
  {
    if 'A' <= c <= 'Z' || '\U{410}' <= c <= '\U{42F}' then (c as int + 32) as char
    else if '\U{400}' <= c <= '\U{40F}' then (c as int + 80) as char
    else c
  }

  /** String.toLowerCase(Locale.ROOT), for Latin and Cyrillic letters. */
  function ToLower(s: string): (r: string)
    ensures |r| == |s|
    ensures forall i :: 0 <= i < |s| ==> r[i] == ToLowerChar(s[i])
  {
    if s == [] then [] else [ToLowerChar(s[0])] + ToLower(s[1..])
  }

  /** Math.max on doubles. */
  function MaxReal(a: real, b: real): real { if a >= b then a else b }

  /** Math.min on doubles. */
  function MinReal(a: real, b: real): real { if a <= b then a else b }
}
