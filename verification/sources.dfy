/**
 * collectSources and trimPunct of PresentationCreator: every match of
 * (https?://\S+) in the slide titles and bullets, less its trailing
 * punctuation, goes into an insertion-ordered set (a LinkedHashSet) that
 * becomes the "Sources" slide.
 *
 * The set is the sequence of its elements in insertion order.
 */
module Sources {
  import opened Wrappers
  import opened JavaText
  import opened SlideBlocks

  // ---------------------------------------------------------------------
  // Matcher.find with (https?://\S+), repeated
  // ---------------------------------------------------------------------

  /** "http" starts at position p of s. */
  predicate HttpAt(s: string, p: nat)
  {
    p + 4 <= |s| && s[p] == 'h' && s[p + 1] == 't' && s[p + 2] == 't' && s[p + 3] == 'p'
  }

  /** "://" starts at position p of s. */
  predicate SlashesAfterColon(s: string, p: nat)
  {
    p + 3 <= |s| && s[p] == ':' && s[p + 1] == '/' && s[p + 2] == '/'
  }

  /** Length of the scheme part "https://" or "http://" starting at p, or 0 when neither starts there. */
  function SchemeLength(s: string, p: nat): (k: nat)
    ensures k == 0 || k == 7 || k == 8
    ensures k > 0 ==> p + k <= |s| && HttpAt(s, p)
  {
    if !HttpAt(s, p) then 0
    else if p + 5 <= |s| && s[p + 4] == 's' && SlashesAfterColon(s, p + 5) then 8
    else if SlashesAfterColon(s, p + 4) then 7
    else 0
  }

  /** The scheme part reads "https://" or "http://". */
  lemma SchemeText(s: string, p: nat)
    ensures SchemeLength(s, p) == 8 ==> s[p..p + 8] == "https://"
    ensures SchemeLength(s, p) == 7 ==> s[p..p + 7] == "http://"
  {}

  /**
   * Length of the match of (https?://\S+) starting at p, or 0 when there is
   * none: the scheme, then the longest run (at least one) of characters
   * outside \s. When "https://" is followed by \s the shorter "http" cannot
   * match either, since its "://" would have to start at the 's'.
   */
  function MatchAt(s: string, p: nat): (n: nat)
    ensures n > 0 ==> SchemeLength(s, p) > 0 && p + SchemeLength(s, p) < p + n <= |s|
  {
    var k := SchemeLength(s, p);
    if k == 0 then 0
    else
      var run := CountUntil(s[p + k..], IsRegexSpace);
      if run == 0 then 0 else k + run
  }

  /** The matches Matcher.find returns one after the other, searching from p: each search resumes where the last match ended. */
  function FindUrls(s: string, p: nat): seq<string>
    requires p <= |s|
    decreases |s| - p
  {
    if p == |s| then []
    else
      var n := MatchAt(s, p);
      if n > 0 then [s[p..p + n]] + FindUrls(s, p + n) else FindUrls(s, p + 1)
  }

  /** s holds no \s character. */
  predicate NoRegexSpace(s: string)
  {
    forall i :: 0 <= i < |s| ==> !IsRegexSpace(s[i])
  }

  /** A found URL starts with its scheme, has at least one character after it, and holds no \s. */
  predicate UrlShaped(u: string)
  {
    SchemeLength(u, 0) > 0 && |u| > SchemeLength(u, 0) && NoRegexSpace(u)
  }

  /** What one match is: a URL-shaped slice of s that no longer \S run could extend. */
  lemma MatchShape(s: string, p: nat)
    requires p <= |s| && MatchAt(s, p) > 0
    ensures UrlShaped(s[p..p + MatchAt(s, p)])
    ensures p + MatchAt(s, p) == |s| || IsRegexSpace(s[p + MatchAt(s, p)])
  {
    var k := SchemeLength(s, p);
    var t := s[p + k..];
    var run := CountUntil(t, IsRegexSpace);
    var u := s[p..p + k + run];
    forall i | 0 <= i < |u|
      ensures !IsRegexSpace(u[i])
    {
      assert u[i] == s[p + i];
      if i >= k {
        assert u[i] == t[i - k];
      }
    }
    assert forall i :: 0 <= i <= k ==> u[i] == s[p + i];
    assert p + k + run < |s| ==> s[p + k + run] == t[run];
  }

  /** u occurs in s at or after position p. */
  predicate SliceFrom(s: string, u: string, p: nat)
  {
    exists a :: p <= a <= |s| - |u| && OccursAt(s, u, a)
  }

  /** Every URL found is URL-shaped and a slice of the text. */
  lemma {:induction false} FoundUrlsShape(s: string, p: nat)
    requires p <= |s|
    ensures forall k :: 0 <= k < |FindUrls(s, p)| ==> UrlShaped(FindUrls(s, p)[k]) && SliceFrom(s, FindUrls(s, p)[k], p)
    decreases |s| - p
  {
    if p < |s| {
      var n := MatchAt(s, p);
      var next := if n > 0 then p + n else p + 1;
      FoundUrlsShape(s, next);
      var r := FindUrls(s, p);
      var tail := FindUrls(s, next);
      forall k | 0 <= k < |r|
        ensures UrlShaped(r[k]) && SliceFrom(s, r[k], p)
      {
        if n > 0 && k == 0 {
          MatchShape(s, p);
          assert OccursAt(s, r[0], p);
        } else {
          var j := if n > 0 then k - 1 else k;
          assert r[k] == tail[j];
          var a :| next <= a <= |s| - |tail[j]| && OccursAt(s, tail[j], a);
          assert p <= a;
        }
      }
    }
  }

  /** Text without any "http" in it has no URL. */
  lemma {:induction false} NoSchemeNoUrls(s: string, p: nat)
    requires p <= |s|
    requires forall i :: p <= i < |s| ==> !HttpAt(s, i)
    ensures FindUrls(s, p) == []
    decreases |s| - p
  {
    if p < |s| {
      assert MatchAt(s, p) == 0;
      NoSchemeNoUrls(s, p + 1);
    }
  }

  /** A string made of a scheme and a \S run matches as a whole. */
  lemma WholeMatch(u: string)
    requires UrlShaped(u)
    ensures MatchAt(u, 0) == |u|
  {
    var k := SchemeLength(u, 0);
    var t := u[k..];
    assert forall i :: 0 <= i < |t| ==> !IsRegexSpace(t[i]) by {
      forall i | 0 <= i < |t| ensures !IsRegexSpace(t[i]) {
        assert t[i] == u[k + i];
      }
    }
  }

  /** A whole string made of a scheme and a \S run is found as one URL. */
  lemma WholeUrl(u: string)
    requires UrlShaped(u)
    ensures FindUrls(u, 0) == [u]
  {
    WholeMatch(u);
    assert u[0..|u|] == u;
  }

  /** One search of Matcher.find from p: a match there, or the search goes on from p + 1. */
  lemma FindStep(s: string, p: nat)
    requires p < |s|
    ensures MatchAt(s, p) > 0 ==> FindUrls(s, p) == [s[p..p + MatchAt(s, p)]] + FindUrls(s, p + MatchAt(s, p))
    ensures MatchAt(s, p) == 0 ==> FindUrls(s, p) == FindUrls(s, p + 1)
  {}

  /** Matcher.find in a loop: the matches of the text, in order. */
  method FindAll(s: string) returns (urls: seq<string>)
    ensures urls == FindUrls(s, 0)
  {
    urls := [];
    var p := 0;
    ghost var all := FindUrls(s, 0);
    while p < |s|
      invariant p <= |s|
      invariant urls + FindUrls(s, p) == all
      decreases |s| - p
    {
      var n := MatchAt(s, p);
      FindStep(s, p);
      if n > 0 {
        var u := s[p..p + n];
        AppendAssoc(urls, [u], FindUrls(s, p + n));
        urls := urls + [u];
        p := p + n;
      } else {
        p := p + 1;
      }
    }
    assert FindUrls(s, p) == [];
    AppendNil(urls);
  }

  // ---------------------------------------------------------------------
  // trimPunct: u.replaceAll("[)\\]\\},.;!?]+$", "")
  // ---------------------------------------------------------------------

  /** The characters of the class [)\]\},.;!?]. */
  predicate IsPunct(c: char)
  {
    c == ')' || c == ']' || c == '}' || c == ',' || c == '.' || c == ';' || c == '!' || c == '?'
  }

  /**
   * How many characters at the end of u the anchor $ may stand before: a
   * final "\r\n" or a final line terminator (without MULTILINE, $ matches at
   * the end of the input or just before such a final terminator).
   */
  function FinalTerminator(u: string): (t: nat)
    ensures t <= |u|
  {
    if |u| >= 2 && u[|u| - 2] == '\r' && u[|u| - 1] == '\n' then 2
    else if u != [] && IsLineTerminator(u[|u| - 1]) then 1
    else 0
  }

  /**
   * trimPunct. The only places $ can match are the end and the position
   * before a final terminator, and a punctuation run can end at only one of
   * them (a terminator is not punctuation), so the one match is the whole
   * punctuation run that ends there.
   */
  function TrimPunct(u: string): (r: string)
    ensures |r| <= |u|
  {
    var t := FinalTerminator(u);
    var body := u[..|u| - t];
    var n := TrailingCount(body, IsPunct);
    body[..|body| - n] + u[|u| - t..]
  }

  /** u holds no line terminator. */
  predicate SingleLine(u: string)
  {
    forall i :: 0 <= i < |u| ==> !IsLineTerminator(u[i])
  }

  /**
   * On a string without line terminators (every found URL is one, unless it
   * holds U+0085, U+2028 or U+2029, which \S lets through) trimPunct cuts
   * exactly the trailing punctuation: what is left is a prefix that does not
   * end in punctuation, and everything cut is punctuation.
   */
  lemma TrimPunctCuts(u: string)
    requires SingleLine(u)
    ensures TrimPunct(u) <= u
    ensures TrimPunct(u) == [] || !IsPunct(TrimPunct(u)[|TrimPunct(u)| - 1])
    ensures forall i :: |TrimPunct(u)| <= i < |u| ==> IsPunct(u[i])
  {
    assert FinalTerminator(u) == 0;
    assert u[..|u|] == u;
    assert u[|u|..] == [];
  }

  /** trimPunct changes nothing the second time on strings without line terminators. */
  lemma TrimPunctIdempotent(u: string)
    requires SingleLine(u)
    ensures TrimPunct(TrimPunct(u)) == TrimPunct(u)
  {
    TrimPunctCuts(u);
    var r := TrimPunct(u);
    assert SingleLine(r) by {
      forall i | 0 <= i < |r|
        ensures !IsLineTerminator(r[i])
      {
        assert r[i] == u[i];
      }
    }
    TrimPunctCuts(r);
  }

  /** A URL that ends in a letter, digit or '/' is kept whole. */
  lemma TrimPunctKeeps(u: string)
    requires u != [] && !IsPunct(u[|u| - 1]) && !IsLineTerminator(u[|u| - 1])
    ensures TrimPunct(u) == u
  {
    assert FinalTerminator(u) == 0;
    assert TrailingCount(u, IsPunct) == 0;
    assert u[..|u|] == u;
  }

  /**
   * Not idempotent in general: a punctuation mark before a final line
   * separator that itself ends in punctuation is cut only by a second pass.
   */
  lemma TrimPunctNotIdempotent()
    ensures TrimPunct("a.\U{2028}.") == "a.\U{2028}"
    ensures TrimPunct("a.\U{2028}") == "a\U{2028}"
  {
    var u := "a.\U{2028}.";
    assert FinalTerminator(u) == 0;
    assert TrailingCount(u, IsPunct) == 1;
    var v := "a.\U{2028}";
    assert FinalTerminator(v) == 1;
    assert v[..2] == "a.";
    assert TrailingCount("a.", IsPunct) == 1;
  }

  // ---------------------------------------------------------------------
  // The insertion-ordered set
  // ---------------------------------------------------------------------

  /** LinkedHashSet.add: a new element goes to the end, a present one changes nothing. */
  function Add(sources: seq<string>, x: string): seq<string>
  {
    if x in sources then sources else sources + [x]
  }

  /** The set after adding the elements of xs one by one to an empty set. */
  function Dedup(xs: seq<string>): seq<string>
  {
    if xs == [] then [] else Add(Dedup(xs[..|xs| - 1]), xs[|xs| - 1])
  }

  /** No element twice. */
  predicate Distinct(xs: seq<string>)
  {
    forall i, j :: 0 <= i < j < |xs| ==> xs[i] != xs[j]
  }

  /** The set holds each added string exactly once, and nothing else. */
  lemma {:induction false} DedupSet(xs: seq<string>)
    ensures Distinct(Dedup(xs))
    ensures forall x :: x in Dedup(xs) <==> x in xs
    ensures |Dedup(xs)| <= |xs|
  {
    if xs != [] {
      var init := xs[..|xs| - 1];
      DedupSet(init);
      assert xs == init + [xs[|xs| - 1]];
    }
  }

  /** Insertion order: what the set held after the first k additions stays at its front. */
  lemma {:induction false} DedupPrefix(xs: seq<string>, k: nat)
    requires k <= |xs|
    ensures Dedup(xs[..k]) <= Dedup(xs)
    decreases |xs| - k
  {
    if k < |xs| {
      DedupPrefix(xs, k + 1);
      assert xs[..k + 1][..k] == xs[..k];
    } else {
      assert xs[..k] == xs;
    }
  }

  /** Adding strings that are all different keeps them all, in order. */
  lemma {:induction false} DedupDistinct(xs: seq<string>)
    requires Distinct(xs)
    ensures Dedup(xs) == xs
  {
    if xs != [] {
      var init := xs[..|xs| - 1];
      DedupDistinct(init);
      assert xs[|xs| - 1] !in init;
    }
  }

  // ---------------------------------------------------------------------
  // collectSources
  // ---------------------------------------------------------------------

  /** The trimmed matches of one text. */
  function TextSources(text: string): seq<string>
  {
    MapEach(FindUrls(text, 0), TrimPunct)
  }

  /** The trimmed matches of every bullet, bullet after bullet. */
  function BulletSources(bullets: seq<string>): seq<string>
  {
    if bullets == [] then [] else BulletSources(bullets[..|bullets| - 1]) + TextSources(bullets[|bullets| - 1])
  }

  /** Everything collectSources adds, in order: per slide the title's matches, then each bullet's. */
  function Candidates(slides: seq<Block>): seq<string>
  {
    if slides == [] then []
    else
      var b := slides[|slides| - 1];
      Candidates(slides[..|slides| - 1]) + TextSources(b.title) + BulletSources(b.bullets)
  }

  /** The set collectSources returns. */
  function CollectedSources(slides: seq<Block>): seq<string>
  {
    Dedup(Candidates(slides))
  }

  /** Adding one more string to the set is the set of one more addition. */
  lemma DedupSnoc(xs: seq<string>, x: string)
    ensures Dedup(xs + [x]) == Add(Dedup(xs), x)
  {
    assert (xs + [x])[..|xs|] == xs;
  }

  /** Adds the trimmed matches of one text to the set. */
  method AddText(sources: seq<string>, ghost seen: seq<string>, text: string) returns (sources': seq<string>)
    requires sources == Dedup(seen)
    ensures sources' == Dedup(seen + TextSources(text))
  {
    var urls := FindAll(text);
    sources' := sources;
    assert seen + MapEach(urls[..0], TrimPunct) == seen;
    for j := 0 to |urls|
      invariant sources' == Dedup(seen + MapEach(urls[..j], TrimPunct))
    {
      var u := TrimPunct(urls[j]);
      assert urls[..j + 1][..j] == urls[..j];
      assert seen + MapEach(urls[..j + 1], TrimPunct) == (seen + MapEach(urls[..j], TrimPunct)) + [u];
      DedupSnoc(seen + MapEach(urls[..j], TrimPunct), u);
      sources' := Add(sources', u);
    }
    assert urls[..|urls|] == urls;
  }

  /** What has been added once one more bullet is done. */
  lemma BulletSourcesSnoc(seen: seq<string>, bullets: seq<string>, j: nat)
    requires j < |bullets|
    ensures seen + BulletSources(bullets[..j + 1]) == (seen + BulletSources(bullets[..j])) + TextSources(bullets[j])
  {
    assert bullets[..j + 1][..j] == bullets[..j];
  }

  /** Adds each bullet's trimmed matches, bullet after bullet. */
  method AddBullets(sources: seq<string>, ghost seen: seq<string>, bullets: seq<string>) returns (sources': seq<string>)
    requires sources == Dedup(seen)
    ensures sources' == Dedup(seen + BulletSources(bullets))
  {
    sources' := sources;
    assert seen + BulletSources(bullets[..0]) == seen;
    for j := 0 to |bullets|
      invariant sources' == Dedup(seen + BulletSources(bullets[..j]))
    {
      sources' := AddText(sources', seen + BulletSources(bullets[..j]), bullets[j]);
      BulletSourcesSnoc(seen, bullets, j);
    }
    assert bullets[..|bullets|] == bullets;
  }

  /** Adds the title's and then each bullet's trimmed matches of one slide. */
  method AddSlide(sources: seq<string>, ghost seen: seq<string>, b: Block) returns (sources': seq<string>)
    requires sources == Dedup(seen)
    ensures sources' == Dedup(seen + TextSources(b.title) + BulletSources(b.bullets))
  {
    sources' := AddText(sources, seen, b.title);
    sources' := AddBullets(sources', seen + TextSources(b.title), b.bullets);
  }

  /** collectSources. */
  method CollectSources(slides: seq<Block>) returns (sources: seq<string>)
    ensures sources == CollectedSources(slides)
  {
    sources := [];
    for i := 0 to |slides|
      invariant sources == Dedup(Candidates(slides[..i]))
    {
      sources := AddSlide(sources, Candidates(slides[..i]), slides[i]);
      assert slides[..i + 1][..i] == slides[..i];
    }
    assert slides[..|slides|] == slides;
  }

  /** Every source is the trimmed form of a URL found in some title or bullet, and none appears twice. */
  lemma SourcesShape(slides: seq<Block>)
    ensures Distinct(CollectedSources(slides))
    ensures forall x :: x in CollectedSources(slides) <==> x in Candidates(slides)
  {
    DedupSet(Candidates(slides));
  }
}
