/**
 * parseBlocks and normalize of PresentationCreator: every block read from
 * text.txt becomes a slide block. Its lines are the trimmed, non-blank lines
 * of the block; lines of the form "!image: <file>" (the word in any ASCII
 * letter case, optional \s around the colon) are removed and the last one
 * names the slide's image; the first remaining line is the title, without a
 * leading run of '#' and the \s after it; the other remaining lines are the
 * bullets. normalize then cuts the list to the required number of slides or
 * pads it with numbered filler slides.
 */
module SlideBlocks {
  import opened Wrappers
  import opened JavaText
  import opened UrlPattern
  import opened TextBlocks

  /** A SlideBlock once parseBlocks or normalize has built it. */
  datatype Block = Block(title: string, bullets: seq<string>, explicitImage: Option<string>)

  /** The title of a block with no line left, and the stem of filler titles. */
  const DEFAULT_TITLE: string := "Слайд"

  /** The stem of a filler slide's only bullet. */
  const FILLER_TEXT: string := "Содержимое слайда"

  /** The directive word, matched with ASCII case folding. */
  const DIRECTIVE: string := "!image"

  // ---------------------------------------------------------------------
  // The lines of a block: block.split("\\R"), trimmed, empty ones dropped
  // ---------------------------------------------------------------------

  /** s holds no character that \R matches. */
  predicate NoBreaks(s: string)
  {
    forall i :: 0 <= i < |s| ==> !IsLinebreak(s[i])
  }

  /** s holds no line terminator of java.util.regex. */
  predicate OneLine(s: string)
  {
    forall i :: 0 <= i < |s| ==> !IsLineTerminator(s[i])
  }

  /**
   * The trimmed, non-empty lines of a block. A "\r\n" pair, one break for
   * \R, leaves an empty piece between '\r' and '\n' here, which the filter
   * drops all the same.
   */
  function Lines(block: string): seq<string>
  {
    NonEmpty(TrimAll(SplitWhere(block, IsLinebreak)))
  }

  /** Trimming a piece without breaks gives a trimmed string without breaks. */
  lemma TrimmedLine(piece: string)
    requires NoBreaks(piece)
    ensures Trim(Trim(piece)) == Trim(piece) && NoBreaks(Trim(piece))
  {
    TrimIdempotent(piece);
    TrimSlice(piece);
    var a, b :| 0 <= a <= b <= |piece| && Trim(piece) == piece[a..b];
    assert forall i :: 0 <= i < b - a ==> Trim(piece)[i] == piece[a + i];
  }

  /** Every line of a block is non-empty, trimmed, and holds neither a line break nor a line terminator. */
  lemma LinesShape(block: string)
    ensures forall k :: 0 <= k < |Lines(block)| ==>
      Lines(block)[k] != [] && Trim(Lines(block)[k]) == Lines(block)[k] && NoBreaks(Lines(block)[k]) && OneLine(Lines(block)[k])
  {
    var pieces := SplitWhere(block, IsLinebreak);
    var trimmed := TrimAll(pieces);
    var lines := Lines(block);
    NonEmptyMembers(trimmed);
    forall k | 0 <= k < |lines|
      ensures Trim(lines[k]) == lines[k] && NoBreaks(lines[k])
    {
      var j :| 0 <= j < |trimmed| && lines[k] == trimmed[j];
      assert NoBreaks(pieces[j]);
      TrimmedLine(pieces[j]);
    }
  }

  // ---------------------------------------------------------------------
  // IMAGE_DIRECTIVE = ^!image\s*:\s*(.+)$, CASE_INSENSITIVE, found in a line
  // ---------------------------------------------------------------------

  /** line starts with the directive word, in any ASCII letter case. */
  predicate NamesImage(line: string)
  {
    |line| >= |DIRECTIVE| && forall i :: 0 <= i < |DIRECTIVE| ==> AsciiLower(line[i]) == DIRECTIVE[i]
  }

  /**
   * Group 1 without its leading \s run when the directive matches the line,
   * else None: the word, a \s run, ':', then at least one more character.
   * The \s run after the colon is taken greedily; when nothing but \s
   * follows the colon the group is its last character, which the trim()
   * applied to it removes, so leaving that run out makes no difference.
   */
  function DirectiveGroup(line: string): (r: Option<string>)
    ensures r.Some? ==> NamesImage(line)
  {
    if !NamesImage(line) then None
    else
      var rest := StripLeftSpace(line[|DIRECTIVE|..]);
      if |rest| < 2 || rest[0] != ':' then None
      else Some(StripLeftSpace(rest[1..]))
  }

  /** IMAGE_DIRECTIVE finds a match in the line. */
  predicate IsDirective(line: string)
  {
    DirectiveGroup(line).Some?
  }

  /** m.group(1).trim() for a directive line, None for any other line. */
  function DirectiveArg(line: string): (r: Option<string>)
    ensures r.Some? <==> IsDirective(line)
    ensures r.Some? ==> Trim(r.value) == r.value
  {
    match DirectiveGroup(line)
    case None => None
    case Some(g) =>
      TrimIdempotent(g);
      Some(Trim(g))
  }

  /** A directive written as the word, a colon and a trimmed name gives that name back. */
  lemma DirectiveOf(word: string, name: string)
    requires |word| == |DIRECTIVE| && forall i :: 0 <= i < |DIRECTIVE| ==> AsciiLower(word[i]) == DIRECTIVE[i]
    requires name != [] && Trim(name) == name
    ensures DirectiveArg(word + ":" + name) == Some(name)
  {
    var line := word + ":" + name;
    assert line[|DIRECTIVE|..] == ":" + name;
    assert StripLeftSpace(":" + name) == ":" + name;
    assert (":" + name)[1..] == name;
    assert IsTrimmable(name[0]) ==> Trim(name) != name;
    assert !IsRegexSpace(name[0]);
    assert StripLeftSpace(name) == name;
  }

  /** A line whose first character is not '!' is never a directive. */
  lemma PlainLineKept(line: string)
    requires line == [] || line[0] != '!'
    ensures !IsDirective(line)
  {
    if line != [] {
      assert AsciiLower(line[0]) != DIRECTIVE[0];
    }
  }

  // ---------------------------------------------------------------------
  // lines.removeIf(directive): what stays, and the image the last one names
  // ---------------------------------------------------------------------

  /** List.removeIf: the elements drop rejects, in order. */
  function RemoveIf<T>(xs: seq<T>, drop: T -> bool): seq<T>
  {
    if xs == [] then []
    else
      var init := xs[..|xs| - 1];
      if drop(xs[|xs| - 1]) then RemoveIf(init, drop) else RemoveIf(init, drop) + [xs[|xs| - 1]]
  }

  /** The position of the last element p holds for, or -1 when there is none. */
  function LastWhere<T>(xs: seq<T>, p: T -> bool): (k: int)
    ensures -1 <= k < |xs|
  {
    if xs == [] then -1
    else if p(xs[|xs| - 1]) then |xs| - 1
    else LastWhere(xs[..|xs| - 1], p)
  }

  /** Exactly the elements drop rejects stay, and no more of them than there were. */
  lemma {:induction false} RemoveIfMembers<T>(xs: seq<T>, drop: T -> bool)
    ensures |RemoveIf(xs, drop)| <= |xs|
    ensures forall x :: x in RemoveIf(xs, drop) <==> x in xs && !drop(x)
  {
    if xs != [] {
      var init := xs[..|xs| - 1];
      RemoveIfMembers(init, drop);
      assert xs == init + [xs[|xs| - 1]];
    }
  }

  /** When drop holds for no element, everything stays and LastWhere finds nothing. */
  lemma {:induction false} RemoveIfNone<T>(xs: seq<T>, drop: T -> bool)
    requires forall k :: 0 <= k < |xs| ==> !drop(xs[k])
    ensures RemoveIf(xs, drop) == xs && LastWhere(xs, drop) == -1
  {
    if xs != [] {
      var init := xs[..|xs| - 1];
      RemoveIfNone(init, drop);
      assert xs == init + [xs[|xs| - 1]];
    }
  }

  /** The element LastWhere points to satisfies p, none after it does, and -1 means none does. */
  lemma {:induction false} LastWhereWins<T>(xs: seq<T>, p: T -> bool)
    ensures var k := LastWhere(xs, p);
      && (k >= 0 ==> p(xs[k]))
      && (forall j :: 0 <= j < |xs| && k < j ==> !p(xs[j]))
      && (k < 0 <==> forall j :: 0 <= j < |xs| ==> !p(xs[j]))
  {
    if xs != [] {
      var n := |xs| - 1;
      var init := xs[..n];
      LastWhereWins(init, p);
      if !p(xs[n]) {
        assert forall j :: 0 <= j < n ==> xs[j] == init[j];
      }
    }
  }

  /** The lines that are not directives, in order. */
  function Kept(lines: seq<string>): seq<string>
  {
    RemoveIf(lines, IsDirective)
  }

  /** The position of the last directive line, or -1 when there is none. */
  function LastDirectiveAt(lines: seq<string>): (k: int)
    ensures -1 <= k < |lines|
  {
    LastWhere(lines, IsDirective)
  }

  /** The block's explicitImage: removeIf visits the lines in order, so the last directive's argument is the one left. */
  function LastDirective(lines: seq<string>): Option<string>
  {
    var k := LastDirectiveAt(lines);
    if k < 0 then None else DirectiveArg(lines[k])
  }

  /** No line after position k is a directive. */
  predicate NoDirectiveAfter(lines: seq<string>, k: int)
  {
    forall j :: 0 <= j < |lines| && k < j ==> !IsDirective(lines[j])
  }

  /** Exactly the lines that are not directives stay, and no more of them than there were lines. */
  lemma KeptMembers(lines: seq<string>)
    ensures |Kept(lines)| <= |lines|
    ensures forall l :: l in Kept(lines) <==> l in lines && !IsDirective(l)
  {
    RemoveIfMembers(lines, IsDirective);
  }

  /** Removing nothing: lines none of which is a directive all stay, and no image is named. */
  lemma KeptAll(lines: seq<string>)
    requires forall k :: 0 <= k < |lines| ==> !IsDirective(lines[k])
    ensures Kept(lines) == lines
    ensures LastDirectiveAt(lines) == -1 && LastDirective(lines) == None
  {
    RemoveIfNone(lines, IsDirective);
  }

  /** The line LastDirectiveAt points to is a directive, and none follows it. */
  lemma LastDirectiveWins(lines: seq<string>)
    ensures var k := LastDirectiveAt(lines);
      (k >= 0 ==> IsDirective(lines[k])) && NoDirectiveAfter(lines, k)
  {
    LastWhereWins(lines, IsDirective);
  }

  /** LastDirectiveAt is -1 exactly when no line is a directive. */
  lemma NoDirectiveAt(lines: seq<string>)
    ensures LastDirectiveAt(lines) < 0 <==> forall j :: 0 <= j < |lines| ==> !IsDirective(lines[j])
  {
    LastWhereWins(lines, IsDirective);
  }

  /** The block names no image exactly when none of its lines is a directive. */
  lemma LastDirectiveNamed(lines: seq<string>)
    ensures LastDirective(lines).None? <==> forall j :: 0 <= j < |lines| ==> !IsDirective(lines[j])
  {
    NoDirectiveAt(lines);
    LastDirectiveWins(lines);
  }

  /** lines.removeIf with the directive matcher, writing explicitImage for each match. */
  method RemoveDirectives(lines: seq<string>) returns (kept: seq<string>, image: Option<string>)
    ensures kept == Kept(lines) && image == LastDirective(lines)
  {
    kept, image := [], None;
    for i := 0 to |lines|
      invariant kept == Kept(lines[..i]) && image == LastDirective(lines[..i])
    {
      var prefix := lines[..i + 1];
      assert prefix[..i] == lines[..i];
      var k := LastDirectiveAt(lines[..i]);
      assert k >= 0 ==> prefix[k] == lines[..i][k];
      var arg := DirectiveArg(lines[i]);
      if arg.Some? {
        image := arg;
      } else {
        kept := kept + [lines[i]];
      }
    }
    assert lines[..|lines|] == lines;
  }

  // ---------------------------------------------------------------------
  // The title: first.replaceFirst("^#+\\s*", "").trim() when it starts with '#'
  // ---------------------------------------------------------------------

  predicate IsHash(c: char) { c == '#' }

  /** The title made of the first remaining line. */
  function HashTitle(first: string): (r: string)
    ensures first != [] && first[0] == '#' ==> Trim(r) == r
    ensures (first == [] || first[0] != '#') ==> r == first
  {
    if first != [] && first[0] == '#' then
      var t := StripLeftSpace(first[LeadingCount(first, IsHash)..]);
      TrimIdempotent(t);
      Trim(t)
    else first
  }

  /**
   * The title of a heading line is the text after the '#' run and the \s run
   * after it, trimmed; text may itself start with '#' when some \s precedes it.
   */
  lemma HeadingTitle(hashes: string, ws: string, text: string)
    requires hashes != [] && forall i :: 0 <= i < |hashes| ==> hashes[i] == '#'
    requires forall i :: 0 <= i < |ws| ==> IsRegexSpace(ws[i])
    requires text == [] || !IsRegexSpace(text[0])
    requires ws != [] || text == [] || text[0] != '#'
    ensures HashTitle(hashes + ws + text) == Trim(text)
  {
    var rest := ws + text;
    var first := hashes + rest;
    assert first == hashes + ws + text;
    assert LeadingCount(rest, IsHash) == 0 by {
      if ws != [] {
        assert rest[0] == ws[0];
      } else if text != [] {
        assert rest[0] == text[0];
      }
    }
    assert LeadingCount(first, IsHash) == |hashes| by {
      LeadingCountPrefix(hashes, rest, IsHash);
    }
    assert first[|hashes|..] == rest;
    assert StripLeftSpace(rest) == text by {
      LeadingCountPrefix(ws, text, IsRegexSpace);
      assert LeadingCount(text, IsRegexSpace) == 0;
      assert rest[|ws|..] == text;
    }
  }

  // ---------------------------------------------------------------------
  // parseBlocks
  // ---------------------------------------------------------------------

  /** The block one text block parses into. */
  function ParseBlock(block: string): Block
  {
    FromLines(Lines(block))
  }

  /** The block made of a text block's lines. */
  function FromLines(lines: seq<string>): Block
  {
    var kept := Kept(lines);
    if kept == [] then Block(DEFAULT_TITLE, [], LastDirective(lines))
    else Block(HashTitle(kept[0]), kept[1..], LastDirective(lines))
  }

  /**
   * What a parsed block holds: bullets are non-empty, trimmed, single lines
   * of the block that are not directives, one fewer than the remaining
   * lines; the title is the first remaining line (or the default title when
   * none remains) and is trimmed; the image is the last directive's argument.
   */
  lemma ParseBlockShape(block: string)
    ensures var b := ParseBlock(block);
      && Trim(b.title) == b.title
      && (Kept(Lines(block)) == [] ==> b.title == DEFAULT_TITLE && b.bullets == [])
      && (Kept(Lines(block)) != [] ==> |b.bullets| == |Kept(Lines(block))| - 1)
      && (forall k :: 0 <= k < |b.bullets| ==>
            b.bullets[k] != [] && Trim(b.bullets[k]) == b.bullets[k] && NoBreaks(b.bullets[k]) &&
            b.bullets[k] in Lines(block) && !IsDirective(b.bullets[k]))
      && b.explicitImage == LastDirective(Lines(block))
  {
    LinesShape(block);
    var lines := Lines(block);
    var kept := Kept(lines);
    KeptMembers(lines);
    var b := ParseBlock(block);
    if kept == [] {
      assert b.title == DEFAULT_TITLE;
      TrimNoop(DEFAULT_TITLE);
    } else {
      assert kept[0] in kept;
      var i :| 0 <= i < |lines| && lines[i] == kept[0];
      forall k | 0 <= k < |b.bullets|
        ensures b.bullets[k] != [] && Trim(b.bullets[k]) == b.bullets[k] && NoBreaks(b.bullets[k])
        ensures b.bullets[k] in lines && !IsDirective(b.bullets[k])
      {
        assert b.bullets[k] == kept[k + 1];
        assert kept[k + 1] in kept;
        var j :| 0 <= j < |lines| && lines[j] == kept[k + 1];
      }
    }
  }

  /** A block without directives or headings: its first line is the title and the others are the bullets. */
  lemma PlainBlock(block: string)
    requires Lines(block) != []
    requires forall k :: 0 <= k < |Lines(block)| ==> Lines(block)[k][0] != '!'
    requires Lines(block)[0][0] != '#'
    ensures ParseBlock(block) == Block(Lines(block)[0], Lines(block)[1..], None)
  {
    LinesShape(block);
    var lines := Lines(block);
    forall k | 0 <= k < |lines|
      ensures !IsDirective(lines[k])
    {
      PlainLineKept(lines[k]);
    }
    KeptAll(lines);
  }

  /** One iteration of parseBlocks. */
  method ParseOne(block: string) returns (b: Block)
    ensures b == ParseBlock(block)
  {
    var lines := Lines(block);
    b := BuildBlock(lines);
  }

  /** The block built from the lines: directives out, then the title and the bullets. */
  method BuildBlock(lines: seq<string>) returns (b: Block)
    ensures b == FromLines(lines)
  {
    var kept, image := RemoveDirectives(lines);
    if kept == [] {
      return Block(DEFAULT_TITLE, [], image);
    }
    var first := kept[0];
    var title := if first != [] && first[0] == '#' then HashTitle(first) else first;
    var bullets := Bullets(kept);
    b := Block(title, bullets, image);
  }

  /** The bullets: every remaining line after the first, in order. */
  method Bullets(kept: seq<string>) returns (bullets: seq<string>)
    requires kept != []
    ensures bullets == kept[1..]
  {
    bullets := [];
    for i := 1 to |kept|
      invariant bullets == kept[1..i]
    {
      bullets := bullets + [kept[i]];
    }
  }

  /** The blocks parseBlocks returns: one per text block, in order. */
  function ParseAll(blocks: seq<string>): seq<Block>
  {
    MapEach(blocks, ParseBlock)
  }

  /** parseBlocks keeps count and order: block i of the result is what text block i parses into. */
  lemma ParseAllEach(blocks: seq<string>)
    ensures |ParseAll(blocks)| == |blocks|
    ensures forall i :: 0 <= i < |blocks| ==> ParseAll(blocks)[i] == ParseBlock(blocks[i])
  {
    MapEachAt(blocks, ParseBlock);
  }

  /** parseBlocks. */
  method ParseBlocks(blocks: seq<string>) returns (out: seq<Block>)
    ensures out == ParseAll(blocks)
  {
    out := [];
    for i := 0 to |blocks|
      invariant out == ParseAll(blocks[..i])
    {
      var b := ParseOne(blocks[i]);
      assert blocks[..i + 1][..i] == blocks[..i];
      out := out + [b];
    }
    assert blocks[..|blocks|] == blocks;
  }

  // ---------------------------------------------------------------------
  // normalize
  // ---------------------------------------------------------------------

  /** The filler block in position i (counting from 0): "Слайд i+1" with one bullet "Содержимое слайда i+1". */
  function Filler(i: nat): Block
  {
    Block(DEFAULT_TITLE + " " + NatToDecimal(i + 1), [FILLER_TEXT + " " + NatToDecimal(i + 1)], None)
  }

  /** The list normalize returns: the first target blocks, padded with filler blocks in the missing positions. */
  function Normalized(raw: seq<Block>, target: nat): seq<Block>
  {
    seq(target, i requires 0 <= i < target => if i < |raw| then raw[i] else Filler(i))
  }

  /**
   * The result has exactly target blocks; the parsed blocks are kept in
   * their order as far as they fit, and every other position holds its
   * filler block.
   */
  lemma NormalizedShape(raw: seq<Block>, target: nat)
    ensures |Normalized(raw, target)| == target
    ensures |raw| >= target ==> Normalized(raw, target) == raw[..target]
    ensures |raw| <= target ==> raw <= Normalized(raw, target)
    ensures forall i :: |raw| <= i < target ==> Normalized(raw, target)[i] == Filler(i)
  {}

  /** Normalising a normalised list changes nothing. */
  lemma NormalizedIdempotent(raw: seq<Block>, target: nat)
    ensures Normalized(Normalized(raw, target), target) == Normalized(raw, target)
  {}

  /** Distinct positions get distinct filler titles and bullets. */
  lemma FillersDistinct(i: nat, j: nat)
    requires i != j
    ensures Filler(i).title != Filler(j).title
    ensures Filler(i).bullets != Filler(j).bullets
  {
    var a, b := NatToDecimal(i + 1), NatToDecimal(j + 1);
    var p, q := DEFAULT_TITLE + " ", FILLER_TEXT + " ";
    assert (p + a)[|p|..] == a && (p + b)[|p|..] == b;
    assert (q + a)[|q|..] == a && (q + b)[|q|..] == b;
    assert Filler(i).title == p + a && Filler(j).title == p + b;
    assert Filler(i).bullets[0] == q + a && Filler(j).bullets[0] == q + b;
  }

  /** A filler block with the number of position i. */
  method NewFiller(i: nat) returns (b: Block)
    ensures b == Filler(i)
  {
    var n := NatToDecimal(i + 1);
    b := Block(DEFAULT_TITLE + " " + n, [FILLER_TEXT + " " + n], None);
  }

  /** normalize, with its three branches. */
  method Normalize(raw: seq<Block>, target: nat) returns (res: seq<Block>)
    ensures res == Normalized(raw, target)
  {
    res := [];
    if raw == [] {
      for i := 0 to target
        invariant res == Normalized(raw, i)
      {
        var b := NewFiller(i);
        res := res + [b];
      }
    } else if |raw| >= target {
      res := raw[..target];
    } else {
      res := raw;
      for i := |raw| to target
        invariant res == Normalized(raw, i)
      {
        var b := NewFiller(i);
        res := res + [b];
      }
    }
  }

  // ---------------------------------------------------------------------
  // From text.txt to the body slides
  // ---------------------------------------------------------------------

  /** Number of content slides of every presentation. */
  const REQUIRED_BODY_SLIDES: nat := 20

  /** normalize(parseBlocks(readBlocks(text)), REQUIRED_BODY_SLIDES). */
  function BodySlides(text: string): seq<Block>
  {
    Normalized(ParseAll(ReadBlocks(text)), REQUIRED_BODY_SLIDES)
  }

  /**
   * There are always 20 body slides: slide i is the i-th block of the text
   * while there are blocks, and its filler after them.
   */
  lemma BodySlidesShape(text: string)
    ensures |BodySlides(text)| == REQUIRED_BODY_SLIDES
    ensures forall i :: 0 <= i < REQUIRED_BODY_SLIDES && i < |ReadBlocks(text)| ==>
      BodySlides(text)[i] == ParseBlock(ReadBlocks(text)[i])
    ensures forall i :: |ReadBlocks(text)| <= i < REQUIRED_BODY_SLIDES ==> BodySlides(text)[i] == Filler(i)
  {
    ParseAllEach(ReadBlocks(text));
  }
}
