/**
 * The slide script reader of PresentationCreator2 (parseSlides and
 * ensureSlide): every line is stripped; blank lines are skipped; a line
 * starting "# Слайд" opens a new slide; "- " lines are bullets; a line that
 * is a URL is an image (Cloudinary's f_auto turned into f_jpg); anything else
 * is a paragraph. Content before the first header is an error.
 *
 * The file arrives as its lines (reading and splitting it is not modelled).
 */
module SlideScript {
  import opened Wrappers
  import opened JavaText
  import opened UrlPattern

  /** The header prefix of a slide. */
  const HEADER: string := "# Слайд"

  /** The message of the IllegalStateException thrown by ensureSlide. */
  const NO_HEADER: string := "Файл начинается с контента без заголовка '# Слайд N: ...'"

  /** A SlideSpec: title, bullets, paragraphs and image URLs, each in input order. */
  datatype Slide = Slide(title: string, bullets: seq<string>, paragraphs: seq<string>, imageUrls: seq<string>)

  /** What a stripped line is. */
  datatype LineKind = Blank | Header(title: string) | Bullet(text: string) | Image(url: string) | Paragraph(text: string)

  /** The title of a header line: the trimmed text after its first ':' when some text follows it, else the whole line. */
  function HeaderTitle(s: string): string
  {
    var idx := IndexOf(s, ':');
    if idx >= 0 && idx + 1 < |s| then Trim(s[idx + 1..]) else s
  }

  /** A Cloudinary URL asking for f_auto is rewritten to ask for f_jpg. */
  function CloudinaryJpg(url: string): string
  {
    if Contains(url, "cloudinary.com") && Contains(url, "f_auto") then Replace(url, "f_auto", "f_jpg") else url
  }

  /**
   * The rewrite leaves no "f_auto" anywhere in a Cloudinary URL (a replaced
   * occurrence cannot combine with its neighbours into a new one), and leaves
   * every other URL as it is.
   */
  lemma CloudinaryJpgRewrite(url: string)
    ensures Contains(url, "cloudinary.com") ==> !Contains(CloudinaryJpg(url), "f_auto")
    ensures !Contains(url, "cloudinary.com") || !Contains(url, "f_auto") ==> CloudinaryJpg(url) == url
  {
    NoAutoAfterRewrite(url);
    if !Contains(url, "f_auto") {
      ReplaceAbsent(url, "f_auto", "f_jpg");
    }
  }

  predicate IsF(c: char) { c == 'f' }

  /** Replacing every "f_auto" by "f_jpg" leaves none behind. */
  lemma {:induction false} NoAutoAfterRewrite(s: string)
    ensures !Contains(Replace(s, "f_auto", "f_jpg"), "f_auto")
    decreases |s|
  {
    if |s| >= 6 {
      if s[..6] == "f_auto" {
        NoAutoAfterRewrite(s[6..]);
        JpgThenClean(Replace(s[6..], "f_auto", "f_jpg"));
      } else {
        NoAutoAfterRewrite(s[1..]);
        NoAutoAtFront(s);
        ReplaceStep(s, "f_auto", "f_jpg");
        CharThenClean(s[0], Replace(s[1..], "f_auto", "f_jpg"));
      }
    }
  }

  /** A replacement followed by text without "f_auto" contains no "f_auto". */
  lemma JpgThenClean(rest: string)
    requires !Contains(rest, "f_auto")
    ensures !Contains("f_jpg" + rest, "f_auto")
  {
    var r := "f_jpg" + rest;
    forall i | 0 <= i <= |r| - 6
      ensures !OccursAt(r, "f_auto", i)
    {
      if i < 5 {
        assert r[i..i + 6][0] == r[i] && r[i..i + 6][2] == r[i + 2];
      } else {
        assert r[i..i + 6] == rest[i - 5..i - 5 + 6];
        assert !OccursAt(rest, "f_auto", i - 5);
      }
    }
  }

  /** A character followed by text without "f_auto" contains it only at the very front. */
  lemma CharThenClean(c: char, rest: string)
    requires !Contains(rest, "f_auto")
    requires |[c] + rest| < 6 || ([c] + rest)[..6] != "f_auto"
    ensures !Contains([c] + rest, "f_auto")
  {
    var r := [c] + rest;
    forall i | 0 <= i <= |r| - 6
      ensures !OccursAt(r, "f_auto", i)
    {
      if i > 0 {
        assert r[i..i + 6] == rest[i - 1..i - 1 + 6];
        assert !OccursAt(rest, "f_auto", i - 1);
      }
    }
  }

  /** Where s does not start with "f_auto", neither does its rewrite. */
  lemma NoAutoAtFront(s: string)
    requires |s| >= 6 && s[..6] != "f_auto"
    ensures var r := [s[0]] + Replace(s[1..], "f_auto", "f_jpg"); |r| < 6 || r[..6] != "f_auto"
  {
    var t := s[1..];
    var rest := Replace(t, "f_auto", "f_jpg");
    var r := [s[0]] + rest;
    if s[0] == 'f' {
      assert t[..5] != "_auto" by { assert s[..6] == [s[0]] + t[..5]; }
      NoAutoRestAtFront(t);
      if |r| >= 6 {
        assert r[..6][1..] == rest[..5];
        assert "f_auto"[1..] == "_auto";
      }
    } else if |r| >= 6 {
      assert r[..6][0] == s[0];
    }
  }

  /** Where t does not start with "_auto", neither does its rewrite. */
  lemma NoAutoRestAtFront(t: string)
    requires |t| >= 5 && t[..5] != "_auto"
    ensures var rest := Replace(t, "f_auto", "f_jpg"); |rest| < 5 || rest[..5] != "_auto"
  {
    var rest := Replace(t, "f_auto", "f_jpg");
    var k := if CountUntil(t, IsF) < 5 then CountUntil(t, IsF) else 5;
    ReplaceKeepsPlain(t, "f_auto", "f_jpg", k);
    var tail := Replace(t[k..], "f_auto", "f_jpg");
    if k == 5 {
      TakeInside(t[..5], tail, 5);
      assert t[..5][..5] == t[..5];
    } else {
      ReplaceHead(t[k..], "f_auto", "f_jpg");
      assert rest[k] == tail[0] == 'f';
      if |rest| >= 5 {
        assert rest[..5][k] == 'f';
      }
    }
  }

  /** The branch a line takes, tested in the source's order. */
  function Kind(line: string): LineKind
  {
    var s := Strip(line);
    if s == [] then Blank
    else if StartsWith(s, HEADER) then Header(HeaderTitle(s))
    else if StartsWith(s, "- ") then Bullet(Trim(s[2..]))
    else if IsImageUrl(s) then Image(CloudinaryJpg(s))
    else Paragraph(s)
  }

  /** Finished slides and the slide being filled (null before the first header). */
  datatype State = State(out: seq<Slide>, curr: Option<Slide>)

  function Closed(curr: Option<Slide>): seq<Slide>
  {
    if curr.Some? then [curr.value] else []
  }

  /** The effect of one line on the parse. */
  function Feed(st: Result<State>, kind: LineKind): Result<State>
  {
    match st
    case Err(_) => st
    case Ok(s) =>
      match kind
      case Blank => st
      case Header(t) => Ok(State(s.out + Closed(s.curr), Some(Slide(t, [], [], []))))
      case Bullet(b) =>
        if s.curr.None? then Err(NO_HEADER)
        else Ok(State(s.out, Some(s.curr.value.(bullets := s.curr.value.bullets + [b]))))
      case Image(u) =>
        if s.curr.None? then Err(NO_HEADER)
        else Ok(State(s.out, Some(s.curr.value.(imageUrls := s.curr.value.imageUrls + [u]))))
      case Paragraph(p) =>
        if s.curr.None? then Err(NO_HEADER)
        else Ok(State(s.out, Some(s.curr.value.(paragraphs := s.curr.value.paragraphs + [p]))))
  }

  /** The kind of every line, in order. */
  function Kinds(lines: seq<string>): seq<LineKind>
  {
    MapEach(lines, Kind)
  }

  /** The parse after lines of the given kinds. */
  function Scan(kinds: seq<LineKind>): Result<State>
  {
    if kinds == [] then Ok(State([], None))
    else Feed(Scan(kinds[..|kinds| - 1]), kinds[|kinds| - 1])
  }

  /** parseSlides: the slides of the script, the last one included, or the error. */
  function Slides(lines: seq<string>): Result<seq<Slide>>
  {
    match Scan(Kinds(lines))
    case Err(m) => Err(m)
    case Ok(s) => Ok(s.out + Closed(s.curr))
  }

  /** Classifying one more line appends its kind. */
  lemma KindsSnoc(lines: seq<string>, i: nat)
    requires i < |lines|
    ensures Kinds(lines[..i + 1]) == Kinds(lines[..i]) + [Kind(lines[i])]
    ensures Scan(Kinds(lines[..i + 1])) == Feed(Scan(Kinds(lines[..i])), Kind(lines[i]))
  {
    assert lines[..i + 1][..i] == lines[..i];
    var ks := Kinds(lines[..i]) + [Kind(lines[i])];
    assert ks[..|ks| - 1] == Kinds(lines[..i]);
  }

  /** The kinds of a prefix are the prefix of the kinds. */
  lemma KindsPrefix(lines: seq<string>, i: nat)
    requires i <= |lines|
    ensures Kinds(lines)[..i] == Kinds(lines[..i])
  {
    MapEachAt(lines, Kind);
    MapEachAt(lines[..i], Kind);
  }

  /** parseSlides: the line loop, filling the current slide in place; ensureSlide throws at once. */
  method ParseSlides(lines: seq<string>) returns (r: Result<seq<Slide>>)
    ensures r == Slides(lines)
  {
    var out: seq<Slide> := [];
    var curr: Option<Slide> := None;
    for i := 0 to |lines|
      invariant Scan(Kinds(lines[..i])) == Ok(State(out, curr))
    {
      KindsSnoc(lines, i);
      var kind := ClassifyLine(lines[i]);
      var step := ApplyLine(out, curr, kind);
      if step.Err? {
        KindsPrefix(lines, i + 1);
        ErrorSticks(Kinds(lines), i + 1);
        return Err(step.message);
      }
      out, curr := step.value.out, step.value.curr;
    }
    assert lines[..|lines|] == lines;
    var slides := out;
    if curr.Some? {
      slides := out + [curr.value];
    }
    assert slides == out + Closed(curr);
    r := Ok(slides);
  }

  /** The body of the line loop: one classified line applied to the slides so far; ensureSlide fails when no slide is open. */
  method ApplyLine(out: seq<Slide>, curr: Option<Slide>, kind: LineKind) returns (r: Result<State>)
    ensures r == Feed(Ok(State(out, curr)), kind)
  {
    match kind
    case Blank =>
      r := Ok(State(out, curr));
    case Header(title) =>
      var done := out;
      if curr.Some? {
        done := out + [curr.value];
      }
      assert done == out + Closed(curr);
      r := Ok(State(done, Some(Slide(title, [], [], []))));
    case Bullet(b) =>
      if curr.None? {
        return Err(NO_HEADER);
      }
      r := Ok(State(out, Some(curr.value.(bullets := curr.value.bullets + [b]))));
    case Image(url) =>
      if curr.None? {
        return Err(NO_HEADER);
      }
      r := Ok(State(out, Some(curr.value.(imageUrls := curr.value.imageUrls + [url]))));
    case Paragraph(p) =>
      if curr.None? {
        return Err(NO_HEADER);
      }
      r := Ok(State(out, Some(curr.value.(paragraphs := curr.value.paragraphs + [p]))));
  }

  /** The tests of the line loop, in the source's order: blank, header, bullet, image URL, paragraph. */
  method ClassifyLine(line: string) returns (kind: LineKind)
    ensures kind == Kind(line)
  {
    var s := Strip(line);
    if s == [] {
      return Blank;
    }
    if StartsWith(s, HEADER) {
      return Header(HeaderTitle(s));
    }
    if StartsWith(s, "- ") {
      return Bullet(Trim(s[2..]));
    }
    if IsImageUrl(s) {
      var url := JpgUrl(s);
      return Image(url);
    }
    return Paragraph(s);
  }

  /** The URL of an image line, as the image branch of the loop computes it. */
  method JpgUrl(s: string) returns (url: string)
    ensures url == CloudinaryJpg(s)
  {
    url := s;
    if Contains(url, "cloudinary.com") && Contains(url, "f_auto") {
      url := Replace(url, "f_auto", "f_jpg");
    }
  }

  /** Once the parse has failed, the lines after it change nothing. */
  lemma {:induction false} ErrorSticks(kinds: seq<LineKind>, i: nat)
    requires i <= |kinds| && Scan(kinds[..i]).Err?
    ensures Scan(kinds) == Scan(kinds[..i])
    decreases |kinds| - i
  {
    if i == |kinds| {
      assert kinds[..i] == kinds;
    } else {
      assert kinds[..i + 1][..i] == kinds[..i];
      ErrorSticks(kinds, i + 1);
    }
  }

  // ---------------------------------------------------------------------
  // What the parse promises
  // ---------------------------------------------------------------------

  /** Every line so far is blank. */
  predicate AllBlank(kinds: seq<LineKind>)
  {
    forall j :: 0 <= j < |kinds| ==> kinds[j].Blank?
  }

  /** Some non-blank, non-header line comes before any header. */
  predicate ContentBeforeHeader(kinds: seq<LineKind>)
  {
    exists i :: 0 <= i < |kinds| && !kinds[i].Blank? && !kinds[i].Header? && AllBlank(kinds[..i])
  }

  lemma AllBlankSnoc(kinds: seq<LineKind>)
    requires kinds != []
    ensures AllBlank(kinds) <==> AllBlank(kinds[..|kinds| - 1]) && kinds[|kinds| - 1].Blank?
  {
    var init := kinds[..|kinds| - 1];
    assert forall j :: 0 <= j < |init| ==> init[j] == kinds[j];
  }

  lemma ContentBeforeHeaderSnoc(kinds: seq<LineKind>)
    requires kinds != []
    ensures var init, last := kinds[..|kinds| - 1], kinds[|kinds| - 1];
      ContentBeforeHeader(kinds) <==>
        ContentBeforeHeader(init) || (AllBlank(init) && !last.Blank? && !last.Header?)
  {
    var init := kinds[..|kinds| - 1];
    if ContentBeforeHeader(init) {
      var i :| 0 <= i < |init| && !init[i].Blank? && !init[i].Header? && AllBlank(init[..i]);
      assert kinds[i] == init[i] && kinds[..i] == init[..i];
    }
    if ContentBeforeHeader(kinds) {
      var i :| 0 <= i < |kinds| && !kinds[i].Blank? && !kinds[i].Header? && AllBlank(kinds[..i]);
      if i < |init| {
        assert init[..i] == kinds[..i] && init[i] == kinds[i];
      } else {
        assert kinds[..i] == init;
      }
    }
    if AllBlank(init) && !kinds[|kinds| - 1].Blank? && !kinds[|kinds| - 1].Header? {
      assert kinds[..|kinds| - 1] == init;
    }
  }

  /**
   * The parse fails exactly when content comes before the first header; while
   * only blank lines have been seen there is no current slide, and no slide
   * is finished without a current one.
   */
  lemma {:induction false} ScanError(kinds: seq<LineKind>)
    ensures Scan(kinds).Err? <==> ContentBeforeHeader(kinds)
    ensures Scan(kinds).Ok? ==> (Scan(kinds).value.curr.None? <==> AllBlank(kinds))
    ensures Scan(kinds).Ok? && Scan(kinds).value.curr.None? ==> Scan(kinds).value.out == []
  {
    if kinds != [] {
      var init := kinds[..|kinds| - 1];
      ScanError(init);
      AllBlankSnoc(kinds);
      ContentBeforeHeaderSnoc(kinds);
      FeedCases(Scan(init), kinds[|kinds| - 1]);
    }
  }

  /** One line: an error stays; content with no current slide fails; otherwise a slide is open after any non-blank line. */
  lemma FeedCases(st: Result<State>, kind: LineKind)
    ensures st.Err? ==> Feed(st, kind) == st
    ensures st.Ok? && kind.Blank? ==> Feed(st, kind) == st
    ensures st.Ok? && !kind.Blank? && !kind.Header? ==> (Feed(st, kind).Err? <==> st.value.curr.None?)
    ensures st.Ok? && !kind.Blank? && Feed(st, kind).Ok? ==> Feed(st, kind).value.curr.Some?
  {}

  /** parseSlides fails exactly when a line with content comes before every header. */
  lemma ParseErrorIff(lines: seq<string>)
    ensures Slides(lines).Err? <==> ContentBeforeHeader(Kinds(lines))
    ensures Slides(lines).Err? ==> Slides(lines).message == NO_HEADER
  {
    ScanError(Kinds(lines));
    ScanMessage(Kinds(lines));
  }

  lemma {:induction false} ScanMessage(kinds: seq<LineKind>)
    ensures Scan(kinds).Err? ==> Scan(kinds).message == NO_HEADER
  {
    if kinds != [] {
      ScanMessage(kinds[..|kinds| - 1]);
    }
  }

  /** The number of header lines. */
  function HeaderCount(kinds: seq<LineKind>): nat
  {
    if kinds == [] then 0
    else HeaderCount(kinds[..|kinds| - 1]) + (if kinds[|kinds| - 1].Header? then 1 else 0)
  }

  /** The titles of the header lines, in order. */
  function HeaderTitles(kinds: seq<LineKind>): seq<string>
  {
    if kinds == [] then []
    else
      var k := kinds[|kinds| - 1];
      HeaderTitles(kinds[..|kinds| - 1]) + (if k.Header? then [k.title] else [])
  }

  /** The texts of the bullet lines, in order. */
  function BulletTexts(kinds: seq<LineKind>): seq<string>
  {
    if kinds == [] then []
    else
      var k := kinds[|kinds| - 1];
      BulletTexts(kinds[..|kinds| - 1]) + (if k.Bullet? then [k.text] else [])
  }

  /** The URLs of the image lines, in order. */
  function ImageUrls(kinds: seq<LineKind>): seq<string>
  {
    if kinds == [] then []
    else
      var k := kinds[|kinds| - 1];
      ImageUrls(kinds[..|kinds| - 1]) + (if k.Image? then [k.url] else [])
  }

  /** The titles of the slides. */
  function Titles(slides: seq<Slide>): seq<string>
  {
    if slides == [] then [] else Titles(slides[..|slides| - 1]) + [slides[|slides| - 1].title]
  }

  /** All bullets of the slides, slide after slide. */
  function AllBullets(slides: seq<Slide>): seq<string>
  {
    if slides == [] then [] else AllBullets(slides[..|slides| - 1]) + slides[|slides| - 1].bullets
  }

  /** All image URLs of the slides, slide after slide. */
  function AllImages(slides: seq<Slide>): seq<string>
  {
    if slides == [] then [] else AllImages(slides[..|slides| - 1]) + slides[|slides| - 1].imageUrls
  }

  /** All paragraphs of the slides, slide after slide. */
  function AllParagraphs(slides: seq<Slide>): seq<string>
  {
    if slides == [] then [] else AllParagraphs(slides[..|slides| - 1]) + slides[|slides| - 1].paragraphs
  }

  /** The texts of the paragraph lines, in order. */
  function ParagraphTexts(kinds: seq<LineKind>): seq<string>
  {
    if kinds == [] then []
    else
      var k := kinds[|kinds| - 1];
      ParagraphTexts(kinds[..|kinds| - 1]) + (if k.Paragraph? then [k.text] else [])
  }

  /** The slides of a state, the open one included. */
  function Open(s: State): seq<Slide>
  {
    s.out + Closed(s.curr)
  }

  lemma SnocSlide(slides: seq<Slide>, x: Slide)
    ensures Titles(slides + [x]) == Titles(slides) + [x.title]
    ensures AllBullets(slides + [x]) == AllBullets(slides) + x.bullets
    ensures AllImages(slides + [x]) == AllImages(slides) + x.imageUrls
    ensures AllParagraphs(slides + [x]) == AllParagraphs(slides) + x.paragraphs
  {
    assert (slides + [x])[..|slides|] == slides;
  }

  /**
   * One line changes the slides only as its kind says: a blank line changes
   * nothing, a header adds an empty slide after the others, and a bullet,
   * image or paragraph leaves every slide but the open one as it was and adds
   * exactly that item to the open one.
   */
  lemma FeedEffect(s: State, kind: LineKind)
    requires Feed(Ok(s), kind).Ok?
    requires s.curr.None? ==> s.out == []
    ensures var n := Feed(Ok(s), kind).value;
      && (kind.Blank? ==> n == s)
      && (kind.Header? ==> Open(n) == Open(s) + [Slide(kind.title, [], [], [])])
      && (kind.Bullet? ==>
            && s.curr.Some? && n.curr.Some? && n.out == s.out
            && n.curr.value == s.curr.value.(bullets := s.curr.value.bullets + [kind.text]))
      && (kind.Image? ==>
            && s.curr.Some? && n.curr.Some? && n.out == s.out
            && n.curr.value == s.curr.value.(imageUrls := s.curr.value.imageUrls + [kind.url]))
      && (kind.Paragraph? ==>
            && s.curr.Some? && n.curr.Some? && n.out == s.out
            && n.curr.value == s.curr.value.(paragraphs := s.curr.value.paragraphs + [kind.text]))
      && |Open(n)| == |Open(s)| + (if kind.Header? then 1 else 0)
      && Titles(Open(n)) == Titles(Open(s)) + (if kind.Header? then [kind.title] else [])
      && AllBullets(Open(n)) == AllBullets(Open(s)) + (if kind.Bullet? then [kind.text] else [])
      && AllImages(Open(n)) == AllImages(Open(s)) + (if kind.Image? then [kind.url] else [])
      && AllParagraphs(Open(n)) == AllParagraphs(Open(s)) + (if kind.Paragraph? then [kind.text] else [])
      && (n.curr.None? ==> n.out == [])
  {
    var o := Open(s);
    assert s.curr.Some? ==> o == s.out + [s.curr.value];
    AppendNil(Titles(o));
    AppendNil(AllBullets(o));
    AppendNil(AllImages(o));
    AppendNil(AllParagraphs(o));
    match kind
    case Blank =>
    case Header(t) =>
      HeaderEffect(s, t);
    case Bullet(b) =>
      BulletEffect(s.out, s.curr.value, b);
      assert Open(Feed(Ok(s), kind).value) == s.out + [s.curr.value.(bullets := s.curr.value.bullets + [b])];
    case Image(u) =>
      ImageEffect(s.out, s.curr.value, u);
      assert Open(Feed(Ok(s), kind).value) == s.out + [s.curr.value.(imageUrls := s.curr.value.imageUrls + [u])];
    case Paragraph(p) =>
      ParagraphEffect(s.out, s.curr.value, p);
      assert Open(Feed(Ok(s), kind).value) == s.out + [s.curr.value.(paragraphs := s.curr.value.paragraphs + [p])];
  }

  /** A bullet line extends the open slide's bullets and nothing else. */
  lemma BulletEffect(out: seq<Slide>, c: Slide, b: string)
    ensures var c2 := c.(bullets := c.bullets + [b]);
      && Titles(out + [c2]) == Titles(out + [c])
      && AllBullets(out + [c2]) == AllBullets(out + [c]) + [b]
      && AllImages(out + [c2]) == AllImages(out + [c])
      && AllParagraphs(out + [c2]) == AllParagraphs(out + [c])
  {
    AppendNil(c.paragraphs);
    AppendNil(c.imageUrls);
    ExtendEffect(out, c, [b], [], []);
    AppendNil(AllImages(out + [c]));
    AppendNil(AllParagraphs(out + [c]));
  }

  /** An image line extends the open slide's image URLs and nothing else. */
  lemma ImageEffect(out: seq<Slide>, c: Slide, u: string)
    ensures var c2 := c.(imageUrls := c.imageUrls + [u]);
      && Titles(out + [c2]) == Titles(out + [c])
      && AllBullets(out + [c2]) == AllBullets(out + [c])
      && AllImages(out + [c2]) == AllImages(out + [c]) + [u]
      && AllParagraphs(out + [c2]) == AllParagraphs(out + [c])
  {
    AppendNil(c.bullets);
    AppendNil(c.paragraphs);
    ExtendEffect(out, c, [], [u], []);
    AppendNil(AllBullets(out + [c]));
    AppendNil(AllParagraphs(out + [c]));
  }

  /** A paragraph line extends the open slide's paragraphs and nothing else. */
  lemma ParagraphEffect(out: seq<Slide>, c: Slide, p: string)
    ensures var c2 := c.(paragraphs := c.paragraphs + [p]);
      && Titles(out + [c2]) == Titles(out + [c])
      && AllBullets(out + [c2]) == AllBullets(out + [c])
      && AllImages(out + [c2]) == AllImages(out + [c])
      && AllParagraphs(out + [c2]) == AllParagraphs(out + [c]) + [p]
  {
    AppendNil(c.bullets);
    AppendNil(c.imageUrls);
    ExtendEffect(out, c, [], [], [p]);
    AppendNil(AllBullets(out + [c]));
    AppendNil(AllImages(out + [c]));
  }

  /** A header closes the open slide and opens an empty one after it. */
  lemma HeaderEffect(s: State, t: string)
    ensures var x := Slide(t, [], [], []);
      var n := State(s.out + Closed(s.curr), Some(x));
      && Open(n) == Open(s) + [x]
      && Titles(Open(n)) == Titles(Open(s)) + [t]
      && AllBullets(Open(n)) == AllBullets(Open(s))
      && AllImages(Open(n)) == AllImages(Open(s))
      && AllParagraphs(Open(n)) == AllParagraphs(Open(s))
  {
    SnocSlide(Open(s), Slide(t, [], [], []));
  }

  /** Replacing the open slide by a copy with more bullets, images or paragraphs extends the flattened contents by exactly those. */
  lemma ExtendEffect(out: seq<Slide>, c: Slide, db: seq<string>, di: seq<string>, dp: seq<string>)
    ensures var c2 := Slide(c.title, c.bullets + db, c.paragraphs + dp, c.imageUrls + di);
      && Titles(out + [c2]) == Titles(out + [c])
      && AllBullets(out + [c2]) == AllBullets(out + [c]) + db
      && AllImages(out + [c2]) == AllImages(out + [c]) + di
      && AllParagraphs(out + [c2]) == AllParagraphs(out + [c]) + dp
  {
    var c2 := Slide(c.title, c.bullets + db, c.paragraphs + dp, c.imageUrls + di);
    SnocSlide(out, c);
    SnocSlide(out, c2);
    AppendAssoc(AllBullets(out), c.bullets, db);
    AppendAssoc(AllImages(out), c.imageUrls, di);
    AppendAssoc(AllParagraphs(out), c.paragraphs, dp);
  }

  /** Every line's content lands in the slides, in order, and nothing else does. */
  lemma {:induction false} ScanContents(kinds: seq<LineKind>)
    requires Scan(kinds).Ok?
    ensures var st := Scan(kinds).value;
      && (st.curr.None? ==> st.out == [])
      && |Open(st)| == HeaderCount(kinds)
      && Titles(Open(st)) == HeaderTitles(kinds)
      && AllBullets(Open(st)) == BulletTexts(kinds)
      && AllImages(Open(st)) == ImageUrls(kinds)
      && AllParagraphs(Open(st)) == ParagraphTexts(kinds)
  {
    if kinds != [] {
      var init := kinds[..|kinds| - 1];
      assert Scan(init).Ok?;
      ScanContents(init);
      FeedEffect(Scan(init).value, kinds[|kinds| - 1]);
    }
  }

  /**
   * A successful parse has one slide per header line, titled as that line
   * says; the bullets, image URLs and paragraphs of the slides, taken slide
   * after slide, are those of the script's lines, in order.
   */
  lemma ParseContents(lines: seq<string>)
    requires Slides(lines).Ok?
    ensures var slides := Slides(lines).value;
      && |slides| == HeaderCount(Kinds(lines))
      && Titles(slides) == HeaderTitles(Kinds(lines))
      && AllBullets(slides) == BulletTexts(Kinds(lines))
      && AllImages(slides) == ImageUrls(Kinds(lines))
      && AllParagraphs(slides) == ParagraphTexts(Kinds(lines))
  {
    ScanContents(Kinds(lines));
  }

  // ---------------------------------------------------------------------
  // Slide by slide
  // ---------------------------------------------------------------------

  /** The slide a header titled t opens, filled with the items of the lines of its section. */
  function SectionSlide(t: string, section: seq<LineKind>): Slide
  {
    Slide(t, BulletTexts(section), ParagraphTexts(section), ImageUrls(section))
  }

  /** No header among the kinds from h + 1 up to e. */
  predicate Section(kinds: seq<LineKind>, h: nat, e: nat)
  {
    h < e <= |kinds| && kinds[h].Header? && forall i :: h < i < e ==> !kinds[i].Header?
  }

  /**
   * After a header at h and the header-free lines up to e, the slides closed
   * before the header are followed by the open slide, which holds the
   * header's title and the items of those lines.
   */
  lemma {:induction false} ScanSection(kinds: seq<LineKind>, h: nat, e: nat)
    requires Section(kinds, h, e) && Scan(kinds[..e]).Ok?
    ensures Scan(kinds[..h]).Ok?
    ensures Scan(kinds[..e]).value == State(Open(Scan(kinds[..h]).value), Some(SectionSlide(kinds[h].title, kinds[h + 1..e])))
    decreases e
  {
    ScanSnoc(kinds, e - 1);
    FeedCases(Scan(kinds[..e - 1]), kinds[e - 1]);
    if e == h + 1 {
      assert kinds[h + 1..e] == [];
    } else {
      ScanSection(kinds, h, e - 1);
      var sec := kinds[h + 1..e];
      var prev := Scan(kinds[..e - 1]).value;
      var c := SectionSlide(kinds[h].title, kinds[h + 1..e - 1]);
      assert prev == State(Open(Scan(kinds[..h]).value), Some(c));
      assert sec[..|sec| - 1] == kinds[h + 1..e - 1];
      assert sec[|sec| - 1] == kinds[e - 1];
      assert !kinds[e - 1].Header?;
      AppendNil(c.bullets);
      AppendNil(c.paragraphs);
      AppendNil(c.imageUrls);
    }
  }

  /** The slides finished after a prefix of the lines are among the slides finished after all of them. */
  lemma {:induction false} OutGrows(kinds: seq<LineKind>, i: nat)
    requires i <= |kinds| && Scan(kinds).Ok?
    ensures Scan(kinds[..i]).Ok?
    ensures Scan(kinds[..i]).value.out <= Scan(kinds).value.out
    decreases |kinds|
  {
    if i == |kinds| {
      assert kinds[..i] == kinds;
    } else {
      var init := kinds[..|kinds| - 1];
      FeedCases(Scan(init), kinds[|kinds| - 1]);
      OutGrows(init, i);
      assert init[..i] == kinds[..i];
    }
  }

  /** A header at e closes every slide open before it: they are all among the finished slides at the end. */
  lemma HeaderCloses(kinds: seq<LineKind>, e: nat)
    requires e < |kinds| && kinds[e].Header? && Scan(kinds).Ok?
    ensures Scan(kinds[..e]).Ok?
    ensures Open(Scan(kinds[..e]).value) <= Scan(kinds).value.out
  {
    ScanSnoc(kinds, e);
    OutGrows(kinds, e + 1);
    assert Scan(kinds[..e]).Ok? by {
      FeedCases(Scan(kinds[..e]), kinds[e]);
    }
    HeaderFeed(Scan(kinds[..e]).value, kinds[e]);
  }

  /** A header finishes every open slide. */
  lemma HeaderFeed(st: State, kind: LineKind)
    requires kind.Header?
    ensures Feed(Ok(st), kind).Ok? && Feed(Ok(st), kind).value.out == Open(st)
  {}

  /** The parse after one more line is that line fed to the parse before it. */
  lemma ScanSnoc(kinds: seq<LineKind>, i: nat)
    requires i < |kinds|
    ensures Scan(kinds[..i + 1]) == Feed(Scan(kinds[..i]), kinds[i])
  {
    assert kinds[..i + 1][..i] == kinds[..i];
  }

  /**
   * Slide by slide: the header at h, the j-th header of the script, opens the
   * j-th slide, and that slide holds the header's title and exactly the
   * bullets, paragraphs and image URLs of the lines between it and the next
   * header (or the end of the script), in order.
   */
  lemma SlideOfSection(kinds: seq<LineKind>, h: nat, e: nat)
    requires Scan(kinds).Ok? && Section(kinds, h, e)
    requires e == |kinds| || kinds[e].Header?
    ensures var slides := Open(Scan(kinds).value);
      var j := HeaderCount(kinds[..h]);
      j < |slides| && slides[j] == SectionSlide(kinds[h].title, kinds[h + 1..e])
  {
    var x := SectionSlide(kinds[h].title, kinds[h + 1..e]);
    OutGrows(kinds, e);
    ScanSection(kinds, h, e);
    var before := Open(Scan(kinds[..h]).value);
    assert |before| == HeaderCount(kinds[..h]) by {
      ScanContents(kinds[..h]);
    }
    var fin := Scan(kinds).value;
    assert before + [x] <= Open(fin) by {
      if e == |kinds| {
        assert kinds[..e] == kinds;
      } else {
        HeaderCloses(kinds, e);
      }
    }
    assert Open(fin)[|before|] == (before + [x])[|before|];
  }

  /** slideOfSection for the lines of a script that parses. */
  lemma ParseSections(lines: seq<string>, h: nat, e: nat)
    requires Slides(lines).Ok? && Section(Kinds(lines), h, e)
    requires e == |lines| || Kinds(lines)[e].Header?
    ensures var kinds := Kinds(lines);
      var j := HeaderCount(kinds[..h]);
      j < |Slides(lines).value| && Slides(lines).value[j] == SectionSlide(kinds[h].title, kinds[h + 1..e])
  {
    SlideOfSection(Kinds(lines), h, e);
  }
}
