/**
 * The block reader of PresentationCreator (readBlocks): text.txt is cut into
 * blocks at every "//" together with the whitespace around it, every block is
 * trimmed, and the blank ones are dropped. What a block holds (image lines,
 * title, bullets) is read in SlideBlocks.
 *
 * The file arrives as its text (reading it is not modelled).
 */
module TextBlocks {
  import opened Wrappers
  import opened JavaText
  import opened UrlPattern

  // ---------------------------------------------------------------------
  // readBlocks: txt.split("\\s*//\\s*"), trimmed, empty pieces dropped
  // ---------------------------------------------------------------------

  /** "//" starts at position i of s. */
  predicate SlashesAt(s: string, i: int)
  {
    0 <= i && i + 1 < |s| && s[i] == '/' && s[i + 1] == '/'
  }

  /** Where the first "//" of s starts, or |s| when there is none. */
  function FirstSlashes(s: string): (n: nat)
    ensures n <= |s|
    ensures n < |s| ==> SlashesAt(s, n)
    decreases |s|
  {
    if |s| < 2 then |s|
    else if s[0] == '/' && s[1] == '/' then 0
    else 1 + FirstSlashes(s[1..])
  }

  /** No "//" starts before FirstSlashes. */
  lemma {:induction false} FirstSlashesFirst(s: string)
    ensures forall j :: 0 <= j < FirstSlashes(s) ==> !SlashesAt(s, j)
    decreases |s|
  {
    if |s| >= 2 && !(s[0] == '/' && s[1] == '/') {
      FirstSlashesFirst(s[1..]);
      var n := FirstSlashes(s);
      forall j | 1 <= j < n
        ensures !SlashesAt(s, j)
      {
        assert SlashesAt(s, j) ==> SlashesAt(s[1..], j - 1);
      }
    }
  }

  /** The pieces of s between its "//" separators, taken left to right without overlap. */
  function SplitAtSlashes(s: string): (r: seq<string>)
    ensures |r| >= 1
    decreases |s|
  {
    var n := FirstSlashes(s);
    if n == |s| then [s] else [s[..n]] + SplitAtSlashes(s[n + 2..])
  }

  /** The pieces joined with sep between each two. */
  function Join(pieces: seq<string>, sep: string): string
    requires |pieces| >= 1
  {
    if |pieces| == 1 then pieces[0] else pieces[0] + sep + Join(pieces[1..], sep)
  }

  /** Nothing but the separators is lost: joining the pieces with "//" gives s back. */
  lemma {:induction false} SplitAtSlashesJoin(s: string)
    ensures Join(SplitAtSlashes(s), "//") == s
    decreases |s|
  {
    var n := FirstSlashes(s);
    if n < |s| {
      var rest := s[n + 2..];
      SplitAtSlashesJoin(rest);
      var r := SplitAtSlashes(s);
      assert r[1..] == SplitAtSlashes(rest);
      assert s == s[..n] + "//" + rest;
    }
  }

  /** s contains no "//". */
  predicate NoSlashes(s: string)
  {
    forall j :: 0 <= j < |s| ==> !SlashesAt(s, j)
  }

  /** No piece contains "//". */
  predicate FreeOfSlashes(pieces: seq<string>)
  {
    forall k :: 0 <= k < |pieces| ==> NoSlashes(pieces[k])
  }

  /** No piece but the last ends in '/'. */
  predicate NoSlashBeforeSeparator(pieces: seq<string>)
  {
    forall k :: 0 <= k < |pieces| - 1 && pieces[k] != [] ==> pieces[k][|pieces[k]| - 1] != '/'
  }

  /** No piece contains "//", and no piece but the last ends in '/': the separators are the leftmost ones. */
  lemma {:induction false} SplitAtSlashesPieces(s: string)
    ensures FreeOfSlashes(SplitAtSlashes(s))
    ensures NoSlashBeforeSeparator(SplitAtSlashes(s))
    decreases |s|
  {
    FirstSlashesFirst(s);
    var n := FirstSlashes(s);
    var r := SplitAtSlashes(s);
    if n < |s| {
      var tail := SplitAtSlashes(s[n + 2..]);
      SplitAtSlashesPieces(s[n + 2..]);
      assert r == [s[..n]] + tail;
      forall j | 0 <= j < n
        ensures !SlashesAt(s[..n], j)
      {
        assert SlashesAt(s[..n], j) ==> SlashesAt(s, j);
      }
      forall k | 0 <= k < |r|
        ensures NoSlashes(r[k])
      {
        if k > 0 {
          assert r[k] == tail[k - 1];
        }
      }
      forall k | 0 <= k < |r| - 1 && r[k] != []
        ensures r[k][|r[k]| - 1] != '/'
      {
        if k > 0 {
          assert r[k] == tail[k - 1];
        } else {
          assert !SlashesAt(s, n - 1);
        }
      }
    }
  }

  /** t without its leading \s run. */
  function StripLeftSpace(t: string): string
  {
    t[LeadingCount(t, IsRegexSpace)..]
  }

  /** t without its trailing \s run. */
  function StripRightSpace(t: string): string
  {
    t[..|t| - TrailingCount(t, IsRegexSpace)]
  }

  /**
   * The pieces between the matches of the separator regex (\s run, "//", \s run) found left to right: a match
   * starts with the \s run just before the first remaining "//" and ends after
   * the \s run just after it.
   */
  function RegexSplit(s: string): (r: seq<string>)
    ensures |r| >= 1
    decreases |s|
  {
    var n := FirstSlashes(s);
    if n == |s| then [s] else [StripRightSpace(s[..n])] + RegexSplit(StripLeftSpace(s[n + 2..]))
  }

  /** String.split: the input itself when nothing matches, else the pieces less their trailing empty ones. */
  function SplitBlocks(txt: string): seq<string>
  {
    if FirstSlashes(txt) == |txt| then [txt] else DropTrailingEmpty(RegexSplit(txt))
  }

  /** readBlocks. */
  function ReadBlocks(txt: string): seq<string>
  {
    NonEmpty(TrimAll(SplitBlocks(txt)))
  }

  lemma TrimAllCons(x: string, rest: seq<string>)
    ensures TrimAll([x] + rest) == [Trim(x)] + TrimAll(rest)
  {
    assert ([x] + rest)[1..] == rest;
  }

  lemma FirstSlashesAfterSpace(ws: string, l: string)
    requires forall i :: 0 <= i < |ws| ==> IsRegexSpace(ws[i])
    ensures FirstSlashes(ws + l) == |ws| + FirstSlashes(l)
    decreases |ws|
  {
    if ws != [] {
      assert (ws + l)[1..] == ws[1..] + l;
      FirstSlashesAfterSpace(ws[1..], l);
    } else {
      assert ws + l == l;
    }
  }

  /** Text in front of another that adds no "//" of its own only lengthens the first piece. */
  lemma SplitAfterSpace(ws: string, l: string)
    requires FirstSlashes(ws + l) == |ws| + FirstSlashes(l)
    ensures var p := SplitAtSlashes(l); SplitAtSlashes(ws + l) == [ws + p[0]] + p[1..]
  {
    var s := ws + l;
    var n := FirstSlashes(l);
    if n < |l| {
      SplitAtFirst(s);
      SplitAtFirst(l);
      TakeAppend(ws, l, n);
      DropAppend(ws, l, n + 2);
      HeadTail(l[..n], SplitAtSlashes(l[n + 2..]));
    } else {
      assert SplitAtSlashes(l)[1..] == [];
      AppendNil([s]);
    }
  }

  /** The first piece is the text before the first "//", and the rest is split again. */
  lemma SplitAtFirst(s: string)
    requires FirstSlashes(s) < |s|
    ensures var n := FirstSlashes(s); SplitAtSlashes(s) == [s[..n]] + SplitAtSlashes(s[n + 2..])
  {}

  /** Dropping the trailing \s run of a piece does not change it once trimmed. */
  lemma TrimRightSpace(piece: string)
    ensures Trim(StripRightSpace(piece)) == Trim(piece)
  {
    var b := TrailingCount(piece, IsRegexSpace);
    var ws := piece[|piece| - b..];
    assert forall i :: 0 <= i < |ws| ==> IsRegexSpace(ws[i]) && IsTrimmable(ws[i]) by {
      forall i | 0 <= i < |ws| ensures IsRegexSpace(ws[i]) && IsTrimmable(ws[i]) {
        assert ws[i] == piece[|piece| - b + i];
        RegexSpaceIsTrimmable(ws[i]);
      }
    }
    assert piece == StripRightSpace(piece) + ws;
    TrimSuffix(StripRightSpace(piece), ws);
  }

  /** Dropping the leading \s run of a text changes its pieces only by that run, which trimming removes. */
  lemma TrimAllLeftSpace(rest: string)
    ensures TrimAll(SplitAtSlashes(StripLeftSpace(rest))) == TrimAll(SplitAtSlashes(rest))
  {
    var k := LeadingCount(rest, IsRegexSpace);
    var ws, l := rest[..k], rest[k..];
    assert rest == ws + l;
    assert forall i :: 0 <= i < |ws| ==> IsRegexSpace(ws[i]) && IsTrimmable(ws[i]) by {
      forall i | 0 <= i < |ws| ensures IsRegexSpace(ws[i]) && IsTrimmable(ws[i]) {
        RegexSpaceIsTrimmable(ws[i]);
      }
    }
    FirstSlashesAfterSpace(ws, l);
    SplitAfterSpace(ws, l);
    var p := SplitAtSlashes(l);
    TrimPrefix(ws, p[0]);
    TrimAllCons(ws + p[0], p[1..]);
    TrimAllCons(p[0], p[1..]);
    assert p == [p[0]] + p[1..];
  }

  /** Once trimmed, the regex pieces are the pieces between the "//" separators. */
  lemma {:induction false} RegexSplitTrim(s: string)
    ensures TrimAll(RegexSplit(s)) == TrimAll(SplitAtSlashes(s))
    decreases |s|
  {
    var n := FirstSlashes(s);
    if n < |s| {
      var rest := s[n + 2..];
      var l := StripLeftSpace(rest);
      RegexSplitTrim(l);
      TrimAllLeftSpace(rest);
      TrimRightSpace(s[..n]);
      RegexSplitAtFirst(s);
      SplitAtFirst(s);
      TrimAllCons(StripRightSpace(s[..n]), RegexSplit(l));
      TrimAllCons(s[..n], SplitAtSlashes(rest));
    }
  }

  /** The first regex piece ends before the \s run in front of the first "//", and the text after the run behind it is split again. */
  lemma RegexSplitAtFirst(s: string)
    requires FirstSlashes(s) < |s|
    ensures var n := FirstSlashes(s);
      RegexSplit(s) == [StripRightSpace(s[..n])] + RegexSplit(StripLeftSpace(s[n + 2..]))
  {}

  lemma {:induction false} NonEmptyDropEmpty(ys: seq<string>)
    ensures NonEmpty(ys + [""]) == NonEmpty(ys)
  {
    if ys == [] {
      assert NonEmpty([""]) == NonEmpty([""][1..]);
    } else {
      assert (ys + [""])[1..] == ys[1..] + [""];
      NonEmptyDropEmpty(ys[1..]);
    }
  }

  lemma TrimAllSnocEmpty(init: seq<string>)
    ensures TrimAll(init + [""]) == TrimAll(init) + [""]
  {
    assert Trim("") == "";
    var a, b := TrimAll(init + [""]), TrimAll(init) + [""];
    assert |a| == |b|;
    forall i | 0 <= i < |a| ensures a[i] == b[i] {
      if i < |init| {
        assert (init + [""])[i] == init[i];
      }
    }
  }

  lemma {:induction false} DropTrailingEmptyBlocks(xs: seq<string>)
    ensures NonEmpty(TrimAll(DropTrailingEmpty(xs))) == NonEmpty(TrimAll(xs))
  {
    if xs != [] && xs[|xs| - 1] == [] {
      var init := xs[..|xs| - 1];
      DropTrailingEmptyBlocks(init);
      assert xs == init + [""];
      TrimAllSnocEmpty(init);
      NonEmptyDropEmpty(TrimAll(init));
    }
  }

  /** readBlocks gives the trimmed, non-empty pieces between the "//" separators, in order. */
  lemma ReadBlocksPieces(txt: string)
    ensures ReadBlocks(txt) == NonEmpty(TrimAll(SplitAtSlashes(txt)))
  {
    if FirstSlashes(txt) < |txt| {
      DropTrailingEmptyBlocks(RegexSplit(txt));
      RegexSplitTrim(txt);
    }
  }

  /** A slice of a string free of "//" is free of "//". */
  lemma NoSlashesSlice(s: string, x: nat, y: nat)
    requires x <= y <= |s| && NoSlashes(s)
    ensures NoSlashes(s[x..y])
  {
    var b := s[x..y];
    forall j | 0 <= j < |b|
      ensures !SlashesAt(b, j)
    {
      assert SlashesAt(b, j) ==> SlashesAt(s, x + j);
    }
  }

  /** Trimming a piece free of "//" gives a trimmed string free of "//". */
  lemma TrimmedPiece(piece: string)
    requires NoSlashes(piece)
    ensures Trim(Trim(piece)) == Trim(piece) && NoSlashes(Trim(piece))
  {
    TrimIdempotent(piece);
    TrimSlice(piece);
    var x, y :| 0 <= x <= y <= |piece| && Trim(piece) == piece[x..y];
    NoSlashesSlice(piece, x, y);
  }

  /** Every block is non-empty, trimmed and free of "//". */
  lemma ReadBlocksShape(txt: string)
    ensures forall k :: 0 <= k < |ReadBlocks(txt)| ==>
      var b := ReadBlocks(txt)[k];
      b != [] && Trim(b) == b && NoSlashes(b)
  {
    ReadBlocksPieces(txt);
    var pieces := SplitAtSlashes(txt);
    SplitAtSlashesPieces(txt);
    var trimmed := TrimAll(pieces);
    var blocks := ReadBlocks(txt);
    NonEmptyMembers(trimmed);
    forall k | 0 <= k < |blocks|
      ensures Trim(blocks[k]) == blocks[k] && NoSlashes(blocks[k])
    {
      var i :| 0 <= i < |trimmed| && blocks[k] == trimmed[i];
      TrimmedPiece(pieces[i]);
    }
  }

  /**
   * The split does not spare URLs or anything else: two trimmed, non-empty
   * texts free of "//" joined by "//" always read back as two blocks, as
   * "http:" and "example.com/a.png" do.
   */
  lemma TwoBlocks(x: string, y: string)
    requires NoSlashes(x) && NoSlashes(y) && Tidy(x) && Tidy(y) && x[|x| - 1] != '/'
    ensures ReadBlocks(x + "//" + y) == [x, y]
  {
    var s := x + "//" + y;
    SplitTwo(x, y);
    ReadBlocksPieces(s);
    var ps := [x, y];
    assert Tidy(ps[0]) && Tidy(ps[1]);
    CleanPieces(ps);
  }

  /** b is non-empty and neither starts nor ends with a character trim removes. */
  predicate Tidy(b: string)
  {
    b != [] && !IsTrimmable(b[0]) && !IsTrimmable(b[|b| - 1])
  }

  /** Pieces that are already trimmed and non-empty are kept as they are. */
  lemma CleanPieces(xs: seq<string>)
    requires forall k :: 0 <= k < |xs| ==> Tidy(xs[k])
    ensures NonEmpty(TrimAll(xs)) == xs
  {
    TrimmedPieces(xs);
    NonEmptyAll(xs);
  }

  /** Text free of "//" joined by one "//" splits into exactly those two pieces. */
  lemma SplitTwo(x: string, y: string)
    requires NoSlashes(x) && NoSlashes(y) && (x != [] ==> x[|x| - 1] != '/')
    ensures SplitAtSlashes(x + "//" + y) == [x, y]
  {
    var s := x + "//" + y;
    assert SlashesAt(s, |x|);
    forall j | 0 <= j < |x|
      ensures !SlashesAt(s, j)
    {
      assert s[j] == x[j];
      if j + 1 < |x| {
        assert s[j + 1] == x[j + 1];
        assert !SlashesAt(x, j);
      }
    }
    FirstSlashesFirst(s);
    var n := FirstSlashes(s);
    assert n == |x|;
    assert s[..n] == x;
    assert s[n + 2..] == y;
    assert FirstSlashes(y) == |y|;
  }

  lemma TrimmedPieces(xs: seq<string>)
    requires forall k :: 0 <= k < |xs| ==> xs[k] != [] && !IsTrimmable(xs[k][0]) && !IsTrimmable(xs[k][|xs[k]| - 1])
    ensures TrimAll(xs) == xs
  {
    forall k | 0 <= k < |xs| ensures Trim(xs[k]) == xs[k] {
      TrimNoop(xs[k]);
    }
  }

  lemma {:induction false} NonEmptyAll(xs: seq<string>)
    requires forall k :: 0 <= k < |xs| ==> xs[k] != []
    ensures NonEmpty(xs) == xs
  {
    if xs != [] {
      NonEmptyAll(xs[1..]);
    }
  }

  lemma UrlIsCutPieces()
    ensures SplitAtSlashes("http://a") == ["http:", "a"]
  {
    var s := "http://a";
    assert SlashesAt(s, 5);
    assert !SlashesAt(s, 0) && !SlashesAt(s, 1) && !SlashesAt(s, 2) && !SlashesAt(s, 3) && !SlashesAt(s, 4);
    assert FirstSlashes(s) == 5;
    assert s[..5] == "http:";
    assert s[7..] == "a";
    assert FirstSlashes("a") == 1;
    assert SplitAtSlashes("a") == ["a"];
  }
}
