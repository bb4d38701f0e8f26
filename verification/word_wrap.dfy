/**
 * The smart word wrapper of PresentationCreator2: greedy packing of
 * whitespace-separated words into lines of at most cpl characters, splitting
 * an over-long word after its rightmost '-', '/' or '.', or else
 * force-hyphenating it near its middle, followed by one anti-orphan pass.
 *
 * The Java builds its result in a shared List<String> and StringBuilder; the
 * methods below do the same on a seq<string> accumulator and a line buffer,
 * and are proved equal to the specification functions, about which the
 * properties are proved as lemmas.
 */
module WordWrap {
  import opened JavaText

  // ---------------------------------------------------------------------
  // Lines, their content and their width
  // ---------------------------------------------------------------------

  /** The lines emitted so far and the line being built (List<String> out, StringBuilder line). */
  datatype Acc = Acc(out: seq<string>, line: string)

  /** All lines joined with nothing in between. */
  function Concat(lines: seq<string>): string
  {
    if lines == [] then "" else Concat(lines[..|lines| - 1]) + lines[|lines| - 1]
  }

  /** The characters that carry content: everything but regex whitespace. */
  function NonSpace(s: string): string
  {
    if s == [] then ""
    else if IsRegexSpace(s[|s| - 1]) then NonSpace(s[..|s| - 1])
    else NonSpace(s[..|s| - 1]) + [s[|s| - 1]]
  }

  /** b is a with '-' characters inserted, and nothing else changed. */
  predicate Hyphened(a: string, b: string)
    decreases |b|
  {
    if b == [] then a == []
    else
      || (b[|b| - 1] == '-' && Hyphened(a, b[..|b| - 1]))
      || (a != [] && a[|a| - 1] == b[|b| - 1] && Hyphened(a[..|a| - 1], b[..|b| - 1]))
  }

  /** Every line is non-empty and at most cpl characters long. */
  predicate LinesWithin(lines: seq<string>, cpl: int)
  {
    forall k :: 0 <= k < |lines| ==> 1 <= |lines[k]| <= cpl
  }

  lemma {:induction false} ConcatAppend(a: seq<string>, b: seq<string>)
    ensures Concat(a + b) == Concat(a) + Concat(b)
    decreases |b|
  {
    if b == [] {
      assert a + b == a;
    } else {
      var ab := a + b;
      assert ab[..|ab| - 1] == a + b[..|b| - 1];
      assert ab[|ab| - 1] == b[|b| - 1];
      ConcatAppend(a, b[..|b| - 1]);
      assert Concat(ab) == Concat(a) + Concat(b[..|b| - 1]) + b[|b| - 1];
    }
  }

  lemma {:induction false} NonSpaceAppend(a: string, b: string)
    ensures NonSpace(a + b) == NonSpace(a) + NonSpace(b)
    decreases |b|
  {
    if b == [] {
      assert a + b == a;
    } else {
      assert (a + b)[..|a + b| - 1] == a + b[..|b| - 1];
      NonSpaceAppend(a, b[..|b| - 1]);
    }
  }

  /** A single whitespace character strips to nothing, any other character to itself. */
  lemma NonSpaceOne(c: char)
    ensures NonSpace([c]) == if IsRegexSpace(c) then "" else [c]
  {
    assert [c][..0] == [];
  }

  /** Nothing inserted: every string is a hyphenation of itself. */
  lemma {:induction false} HyphenedSame(a: string)
    ensures Hyphened(a, a)
    decreases |a|
  {
    if a != [] {
      HyphenedSame(a[..|a| - 1]);
    }
  }

  /** One '-' appended. */
  lemma HyphenedDash(a: string)
    ensures Hyphened(a, a + "-")
  {
    HyphenedSame(a);
    assert (a + "-")[..|a|] == a;
  }

  /** A fragment with its '-' appended carries the fragment's content and one inserted '-'. */
  lemma DashHyphened(piece: string)
    ensures Hyphened(NonSpace(piece), NonSpace(piece + "-"))
  {
    NonSpaceAppend(piece, "-");
    NonSpaceOne('-');
    HyphenedDash(NonSpace(piece));
  }

  /** Hyphenations of two strings, one after the other, hyphenate the two joined. */
  lemma {:induction false} HyphenedAppend(a1: string, b1: string, a2: string, b2: string)
    requires Hyphened(a1, b1) && Hyphened(a2, b2)
    ensures Hyphened(a1 + a2, b1 + b2)
    decreases |b2|
  {
    if b2 == [] {
      assert a1 + a2 == a1 && b1 + b2 == b1;
    } else {
      var b := b1 + b2;
      assert b[..|b| - 1] == b1 + b2[..|b2| - 1];
      assert b[|b| - 1] == b2[|b2| - 1];
      if b2[|b2| - 1] == '-' && Hyphened(a2, b2[..|b2| - 1]) {
        HyphenedAppend(a1, b1, a2, b2[..|b2| - 1]);
      } else {
        var a := a1 + a2;
        assert a[..|a| - 1] == a1 + a2[..|a2| - 1];
        HyphenedAppend(a1, b1, a2[..|a2| - 1], b2[..|b2| - 1]);
      }
    }
  }

  /** Without a '-' in b nothing can have been inserted: b is a. */
  lemma {:induction false} HyphenedNoDash(a: string, b: string)
    requires Hyphened(a, b) && '-' !in b
    ensures a == b
    decreases |b|
  {
    if b != [] {
      assert b[|b| - 1] in b;
      assert forall c :: c in b[..|b| - 1] ==> c in b;
      HyphenedNoDash(a[..|a| - 1], b[..|b| - 1]);
      assert a == a[..|a| - 1] + [a[|a| - 1]];
      assert b == b[..|b| - 1] + [b[|b| - 1]];
    }
  }

  // ---------------------------------------------------------------------
  // Where an over-long word is cut
  // ---------------------------------------------------------------------

  predicate IsDelimiter(c: char) { c == '-' || c == '/' || c == '.' }

  function Max(a: int, b: int): int { if a >= b then a else b }

  /** appendFitting's cut: the rightmost '-', '/' or '.' of the word, or -1 when it has none. */
  function DelimiterCut(word: string): (cut: int)
    ensures -1 <= cut < |word|
    ensures cut >= 0 ==> IsDelimiter(word[cut])
    ensures forall j :: cut < j < |word| ==> !IsDelimiter(word[j])
  {
    Max(Max(LastIndexOf(word, '-'), LastIndexOf(word, '/')), LastIndexOf(word, '.'))
  }

  /**
   * forceHyphenate's cut: near the middle, but at least 3 and at most cpl - 1.
   * The left fragment plus its '-' fits a line and the remainder is strictly shorter.
   */
  function HyphenCut(word: string, cpl: int): (idx: int)
    requires 2 <= cpl < |word|
    ensures 1 <= idx <= cpl - 1 && idx < |word|
  {
    var m := Max(3, |word| / 2);
    if cpl - 1 <= m then cpl - 1 else m
  }

  // ---------------------------------------------------------------------
  // appendFitting / forceHyphenate (corrected, see Finding in README)
  // ---------------------------------------------------------------------

  /** The emitted lines plus the buffer, flushed only when the buffer is non-empty. */
  function Flush(acc: Acc): seq<string>
  {
    if |acc.line| > 0 then acc.out + [acc.line] else acc.out
  }

  /**
   * appendFitting: a word that fits is appended to the buffer; a longer one is
   * cut after its rightmost delimiter (the left part force-hyphenated when it is
   * itself too long) and the right part wrapped again; otherwise it is
   * force-hyphenated.
   */
  function Fit(acc: Acc, word: string, cpl: int): Acc
    requires cpl >= 2
    decreases |word|, 1
  {
    if |word| <= cpl then Acc(acc.out, acc.line + word)
    else
      var cut := DelimiterCut(word);
      if 0 < cut < |word| - 1 then
        var left, right := word[..cut + 1], word[cut + 1..];
        var done := if |left| > cpl then Hyphenate(acc, left, cpl) else Acc(acc.out, acc.line + left);
        Fit(Acc(done.out + [done.line], ""), right, cpl)
      else
        Hyphenate(acc, word, cpl)
  }

  /** forceHyphenate: flush the buffer, emit the left fragment plus '-', wrap the rest. */
  function Hyphenate(acc: Acc, word: string, cpl: int): Acc
    requires 2 <= cpl < |word|
    decreases |word|, 0
  {
    var idx := HyphenCut(word, cpl);
    Fit(Acc(Flush(acc) + [word[..idx] + "-"], ""), word[idx..], cpl)
  }

  // ---------------------------------------------------------------------
  // appendFitting / forceHyphenate exactly as written
  // ---------------------------------------------------------------------

  /**
   * appendFitting as the source has it: when the part before the delimiter is
   * itself longer than cpl, only that part is force-hyphenated and the part
   * after the delimiter is never wrapped.
   */
  function FitAsWritten(acc: Acc, word: string, cpl: int): Acc
    requires cpl >= 2
    decreases |word|, 1
  {
    if |word| <= cpl then Acc(acc.out, acc.line + word)
    else
      var cut := DelimiterCut(word);
      if 0 < cut < |word| - 1 then
        var left, right := word[..cut + 1], word[cut + 1..];
        if |left| > cpl then HyphenateAsWritten(acc, left, cpl)
        else FitAsWritten(Acc(acc.out + [acc.line + left], ""), right, cpl)
      else
        HyphenateAsWritten(acc, word, cpl)
  }

  /** forceHyphenate as the source has it (it recurses into the as-written appendFitting). */
  function HyphenateAsWritten(acc: Acc, word: string, cpl: int): Acc
    requires 2 <= cpl < |word|
    decreases |word|, 0
  {
    var idx := HyphenCut(word, cpl);
    FitAsWritten(Acc(Flush(acc) + [word[..idx] + "-"], ""), word[idx..], cpl)
  }

  /**
   * The source loses text: wrapping "aaaaaaaaaaaaa-b" at 12 characters emits
   * "aaaaaaa-" and leaves "aaaaaa-" in the buffer; the "b" is gone.
   */
  lemma AsWrittenDropsRightPart()
    ensures var r := FitAsWritten(Acc([], ""), "aaaaaaaaaaaaa-b", 12);
      && r == Acc(["aaaaaaa-"], "aaaaaa-")
      && (forall k :: 0 <= k < |r.out| ==> 'b' !in r.out[k])
      && 'b' !in r.line
  {
    var word := "aaaaaaaaaaaaa-b";
    assert word[13] == '-' && word[14] == 'b';
    assert DelimiterCut(word) == 13;
    var left := word[..14];
    assert left == "aaaaaaaaaaaaa-";
    assert HyphenCut(left, 12) == 7;
    assert left[..7] + "-" == "aaaaaaa-";
    assert left[7..] == "aaaaaa-";
    assert Flush(Acc([], "")) == [];
  }

  /** The corrected appendFitting keeps the right part of the same word on a line of its own. */
  lemma CorrectedKeepsRightPart()
    ensures Fit(Acc([], ""), "aaaaaaaaaaaaa-b", 12) == Acc(["aaaaaaa-", "aaaaaa-"], "b")
  {
    var word := "aaaaaaaaaaaaa-b";
    assert word[13] == '-' && word[14] == 'b';
    assert DelimiterCut(word) == 13;
    var left := word[..14];
    assert left == "aaaaaaaaaaaaa-";
    assert HyphenCut(left, 12) == 7;
    assert left[..7] + "-" == "aaaaaaa-";
    assert left[7..] == "aaaaaa-";
    assert Flush(Acc([], "")) == [];
    assert Hyphenate(Acc([], ""), left, 12) == Acc(["aaaaaaa-"], "aaaaaa-");
    assert word[14..] == "b";
  }

  // ---------------------------------------------------------------------
  // What appendFitting / forceHyphenate guarantee
  // ---------------------------------------------------------------------

  /**
   * Starting from the emitted lines base, r has only appended lines, each
   * non-empty and at most cpl long, and keeps a buffer of at most cpl characters.
   */
  predicate Within(base: seq<string>, r: Acc, cpl: int)
  {
    && base <= r.out
    && LinesWithin(r.out[|base|..], cpl)
    && |r.line| <= cpl
  }

  /**
   * Within, and the appended lines plus the buffer hold the non-whitespace
   * characters of src in order, none lost, with only '-' characters inserted.
   */
  predicate Sound(base: seq<string>, r: Acc, cpl: int, src: string)
  {
    && Within(base, r, cpl)
    && Hyphened(NonSpace(src), NonSpace(Concat(r.out[|base|..]) + r.line))
  }

  /** A word that fits, appended to an empty buffer. */
  lemma SoundBuffer(base: seq<string>, word: string, cpl: int)
    requires |word| <= cpl
    ensures Sound(base, Acc(base, word), cpl, word)
  {
    assert base[|base|..] == [];
    assert Concat([]) + word == word;
    HyphenedSame(NonSpace(word));
  }

  /** Two sound stretches joined by flushing the first one's non-empty buffer. */
  lemma Chain(base: seq<string>, mid: Acc, r: Acc, cpl: int, a: string, b: string)
    requires Sound(base, mid, cpl, a) && 1 <= |mid.line|
    requires Sound(mid.out + [mid.line], r, cpl, b)
    ensures Sound(base, r, cpl, a + b)
  {
    ChainLines(base, mid, r, cpl);
    ChainContent(mid.out[|base|..], mid.line, r.out[|mid.out| + 1..], r.line, a, b);
  }

  /** The lines added over two stretches joined by a flushed buffer: the first ones, the buffer, the second ones. */
  lemma ChainLines(base: seq<string>, mid: Acc, r: Acc, cpl: int)
    requires base <= mid.out && LinesWithin(mid.out[|base|..], cpl) && 1 <= |mid.line| <= cpl
    requires mid.out + [mid.line] <= r.out && LinesWithin(r.out[|mid.out| + 1..], cpl)
    ensures base <= r.out
    ensures r.out[|base|..] == mid.out[|base|..] + [mid.line] + r.out[|mid.out| + 1..]
    ensures LinesWithin(r.out[|base|..], cpl)
  {
    var x := mid.out[|base|..];
    var y := r.out[|mid.out| + 1..];
    var added := r.out[|base|..];
    assert added == x + [mid.line] + y;
    forall k | 0 <= k < |added| ensures 1 <= |added[k]| <= cpl {
      if k < |x| { assert added[k] == x[k]; }
      else if k == |x| { assert added[k] == mid.line; }
      else { assert added[k] == y[k - |x| - 1]; }
    }
  }

  /** The content of two stretches joined by a flushed buffer is the content of both. */
  lemma ChainContent(x: seq<string>, line: string, y: seq<string>, rest: string, a: string, b: string)
    requires Hyphened(NonSpace(a), NonSpace(Concat(x) + line))
    requires Hyphened(NonSpace(b), NonSpace(Concat(y) + rest))
    ensures Hyphened(NonSpace(a + b), NonSpace(Concat(x + [line] + y) + rest))
  {
    ConcatAppend(x + [line], y);
    ConcatAppend(x, [line]);
    ConcatOne(line);
    AppendAssoc(Concat(x) + line, Concat(y), rest);
    NonSpaceAppend(Concat(x) + line, Concat(y) + rest);
    NonSpaceAppend(a, b);
    HyphenedAppend(NonSpace(a), NonSpace(Concat(x) + line), NonSpace(b), NonSpace(Concat(y) + rest));
  }

  /** Two sound stretches, the first one ending with an empty buffer. */
  lemma {:induction false} ChainEmpty(base: seq<string>, mid: Acc, r: Acc, cpl: int, a: string, b: string)
    requires Sound(base, mid, cpl, a) && mid.line == ""
    requires Sound(mid.out, r, cpl, b)
    ensures Sound(base, r, cpl, a + b)
  {
    ChainEmptyLines(base, mid, r, cpl);
    var x := mid.out[|base|..];
    var y := r.out[|mid.out|..];
    assert Concat(x) + mid.line == Concat(x);
    ChainEmptyContent(x, y, r.line, a, b);
  }

  /** The lines added over two stretches with nothing in between. */
  lemma ChainEmptyLines(base: seq<string>, mid: Acc, r: Acc, cpl: int)
    requires base <= mid.out && LinesWithin(mid.out[|base|..], cpl)
    requires mid.out <= r.out && LinesWithin(r.out[|mid.out|..], cpl)
    ensures base <= r.out
    ensures r.out[|base|..] == mid.out[|base|..] + r.out[|mid.out|..]
    ensures LinesWithin(r.out[|base|..], cpl)
  {
    var x := mid.out[|base|..];
    var y := r.out[|mid.out|..];
    var added := r.out[|base|..];
    assert added == x + y;
    forall k | 0 <= k < |added| ensures 1 <= |added[k]| <= cpl {
      if k < |x| { assert added[k] == x[k]; } else { assert added[k] == y[k - |x|]; }
    }
  }

  /** The content of two stretches with nothing in between is the content of both. */
  lemma ChainEmptyContent(x: seq<string>, y: seq<string>, rest: string, a: string, b: string)
    requires Hyphened(NonSpace(a), NonSpace(Concat(x)))
    requires Hyphened(NonSpace(b), NonSpace(Concat(y) + rest))
    ensures Hyphened(NonSpace(a + b), NonSpace(Concat(x + y) + rest))
  {
    ConcatAppend(x, y);
    AppendAssoc(Concat(x), Concat(y), rest);
    NonSpaceAppend(Concat(x), Concat(y) + rest);
    NonSpaceAppend(a, b);
    HyphenedAppend(NonSpace(a), NonSpace(Concat(x)), NonSpace(b), NonSpace(Concat(y) + rest));
  }

  /** forceHyphenate's first step: the buffer flushed and the fragment with its hyphen in the buffer. */
  lemma {:induction false} FlushSound(acc: Acc, frag: string, piece: string, cpl: int)
    requires |acc.line| <= cpl && 1 <= |frag| <= cpl && Hyphened(NonSpace(piece), NonSpace(frag))
    ensures Sound(acc.out, Acc(Flush(acc), frag), cpl, acc.line + piece)
  {
    FlushWithin(acc, frag, cpl);
    var added := Flush(acc)[|acc.out|..];
    assert Concat(added) + frag == acc.line + frag;
    NonSpaceAppend(acc.line, frag);
    NonSpaceAppend(acc.line, piece);
    HyphenedSame(NonSpace(acc.line));
    HyphenedAppend(NonSpace(acc.line), NonSpace(acc.line), NonSpace(piece), NonSpace(frag));
  }

  /** Flushing a buffer of at most cpl characters, then a fragment of 1 to cpl characters in the buffer. */
  lemma FlushWithin(acc: Acc, frag: string, cpl: int)
    requires |acc.line| <= cpl && 1 <= |frag| <= cpl
    ensures Within(acc.out, Acc(Flush(acc), frag), cpl)
    ensures Concat(Flush(acc)[|acc.out|..]) == acc.line
  {
    var added := Flush(acc)[|acc.out|..];
    if |acc.line| > 0 {
      assert added == [acc.line];
      ConcatOne(acc.line);
    } else {
      assert added == [];
    }
  }

  /**
   * Started on an empty buffer, appendFitting emits only non-empty lines of at
   * most cpl characters, leaves a buffer of at most cpl characters (empty only
   * for the empty word), and loses no content: the emitted lines and the
   * buffer hold the word's non-whitespace characters in order, with only '-'
   * characters inserted.
   */
  lemma {:induction false} FitSound(acc: Acc, word: string, cpl: int)
    requires cpl >= 2 && acc.line == ""
    ensures Sound(acc.out, Fit(acc, word, cpl), cpl, word)
    ensures Fit(acc, word, cpl).line == "" <==> word == ""
    decreases |word|, 1
  {
    if |word| <= cpl {
      assert acc.line + word == word;
      SoundBuffer(acc.out, word, cpl);
    } else {
      var cut := DelimiterCut(word);
      if 0 < cut < |word| - 1 {
        SplitSound(acc, word, cpl, cut);
      } else {
        HyphenateSound(acc, word, cpl);
        assert acc.line + word == word;
      }
    }
  }

  /** The delimiter branch of appendFitting: the left part, a flush, then the right part. */
  lemma {:induction false} SplitSound(acc: Acc, word: string, cpl: int, cut: int)
    requires 2 <= cpl < |word| && acc.line == ""
    requires cut == DelimiterCut(word) && 0 < cut < |word| - 1
    ensures Sound(acc.out, Fit(acc, word, cpl), cpl, word)
    ensures Fit(acc, word, cpl).line != ""
    decreases |word|, 0
  {
    var left, right := word[..cut + 1], word[cut + 1..];
    var done := if |left| > cpl then Hyphenate(acc, left, cpl) else Acc(acc.out, acc.line + left);
    var mid := Acc(done.out + [done.line], "");
    var r := Fit(mid, right, cpl);
    assert Fit(acc, word, cpl) == r by {
      FitAtCut(acc, word, cpl);
    }
    assert left + right == word;
    assert Sound(acc.out, done, cpl, left) && 1 <= |done.line| by {
      LeftSound(acc, left, cpl);
    }
    assert Sound(mid.out, r, cpl, right) && r.line != "" by {
      FitSound(mid, right, cpl);
    }
    Chain(acc.out, done, r, cpl, left, right);
  }

  /** The left part of a delimiter cut, force-hyphenated when it is too long, leaves a non-empty buffer. */
  lemma {:induction false} LeftSound(acc: Acc, left: string, cpl: int)
    requires cpl >= 2 && acc.line == "" && 1 <= |left|
    ensures var done := if |left| > cpl then Hyphenate(acc, left, cpl) else Acc(acc.out, acc.line + left);
      Sound(acc.out, done, cpl, left) && 1 <= |done.line|
    decreases |left|, 1
  {
    if |left| > cpl {
      HyphenateSound(acc, left, cpl);
      assert acc.line + left == left;
    } else {
      assert acc.line + left == left;
      SoundBuffer(acc.out, left, cpl);
    }
  }

  /** appendFitting at a delimiter cut goes on with the right part after the flushed left part. */
  lemma FitAtCut(acc: Acc, word: string, cpl: int)
    requires 2 <= cpl < |word|
    requires 0 < DelimiterCut(word) < |word| - 1
    ensures var cut := DelimiterCut(word);
      var left, right := word[..cut + 1], word[cut + 1..];
      var done := if |left| > cpl then Hyphenate(acc, left, cpl) else Acc(acc.out, acc.line + left);
      Fit(acc, word, cpl) == Fit(Acc(done.out + [done.line], ""), right, cpl)
  {
  }

  /**
   * forceHyphenate flushes a buffer of at most cpl characters, emits the
   * fragment plus '-', and wraps the rest: every emitted line fits, the
   * buffer left behind is non-empty, and no content is lost.
   */
  lemma {:induction false} HyphenateSound(acc: Acc, word: string, cpl: int)
    requires 2 <= cpl < |word| && |acc.line| <= cpl
    ensures Sound(acc.out, Hyphenate(acc, word, cpl), cpl, acc.line + word)
    ensures Hyphenate(acc, word, cpl).line != ""
    decreases |word|, 0
  {
    var idx := HyphenCut(word, cpl);
    var piece, rest := word[..idx], word[idx..];
    var frag := piece + "-";
    var mid := Acc(Flush(acc) + [frag], "");
    var r := Fit(mid, rest, cpl);
    assert Hyphenate(acc, word, cpl) == r;
    assert (acc.line + piece) + rest == acc.line + word;
    assert Sound(acc.out, Acc(Flush(acc), frag), cpl, acc.line + piece) by {
      DashHyphened(piece);
      FlushSound(acc, frag, piece, cpl);
    }
    FitSound(mid, rest, cpl);
    Chain(acc.out, Acc(Flush(acc), frag), r, cpl, acc.line + piece, rest);
  }

  /**
   * appendFitting as the source has it, started on an empty buffer, still
   * emits only non-empty lines of at most cpl characters and leaves a buffer
   * of at most cpl characters: what it gets wrong is the content alone.
   */
  lemma {:induction false} FitAsWrittenWithin(acc: Acc, word: string, cpl: int)
    requires cpl >= 2 && acc.line == ""
    ensures Within(acc.out, FitAsWritten(acc, word, cpl), cpl)
    decreases |word|, 1
  {
    if |word| <= cpl {
      assert acc.out[|acc.out|..] == [];
    } else {
      var cut := DelimiterCut(word);
      if 0 < cut < |word| - 1 {
        var left, right := word[..cut + 1], word[cut + 1..];
        if |left| > cpl {
          HyphenateAsWrittenWithin(acc, left, cpl);
        } else {
          var next := Acc(acc.out + [left], "");
          assert acc.line + left == left;
          assert acc.out[|acc.out|..] == [];
          FitAsWrittenWithin(next, right, cpl);
          ChainLines(acc.out, Acc(acc.out, left), FitAsWritten(next, right, cpl), cpl);
        }
      } else {
        HyphenateAsWrittenWithin(acc, word, cpl);
      }
    }
  }

  /** forceHyphenate as the source has it keeps every emitted line and the buffer within cpl. */
  lemma {:induction false} HyphenateAsWrittenWithin(acc: Acc, word: string, cpl: int)
    requires 2 <= cpl < |word| && |acc.line| <= cpl
    ensures Within(acc.out, HyphenateAsWritten(acc, word, cpl), cpl)
    decreases |word|, 0
  {
    var idx := HyphenCut(word, cpl);
    var frag := word[..idx] + "-";
    var mid := Acc(Flush(acc) + [frag], "");
    FlushWithin(acc, frag, cpl);
    FitAsWrittenWithin(mid, word[idx..], cpl);
    ChainLines(acc.out, Acc(Flush(acc), frag), FitAsWritten(mid, word[idx..], cpl), cpl);
  }

  /**
   * The word's rightmost '-', '/' or '.' is missing, first or last: the
   * delimiter branch of appendFitting does not apply to it.
   */
  predicate EdgeCut(word: string)
  {
    var cut := DelimiterCut(word);
    cut <= 0 || cut == |word| - 1
  }

  /**
   * Every word appendFitting hands to forceHyphenate has its rightmost
   * delimiter at an edge: the part before a delimiter ends with it, and a
   * whole word goes there only when its delimiter is at an edge already.
   */
  lemma HyphenatedWordsEdgeCut(word: string)
    ensures !EdgeCut(word) ==> EdgeCut(word[..DelimiterCut(word) + 1])
  {
    var cut := DelimiterCut(word);
    if !EdgeCut(word) {
      var left := word[..cut + 1];
      assert forall j :: 0 <= j < |left| ==> left[j] == word[j];
      assert DelimiterCut(left) == cut;
    }
  }

  /** What follows the cut of a word with its delimiter at an edge has its delimiter at an edge too. */
  lemma RemainderEdgeCut(word: string, idx: int)
    requires EdgeCut(word) && 1 <= idx <= |word|
    ensures EdgeCut(word[idx..])
  {
    var rest := word[idx..];
    assert forall j :: 0 <= j < |rest| ==> rest[j] == word[idx + j];
  }

  /**
   * On a word with its delimiter at an edge, appendFitting as written and the
   * corrected one agree: the part they differ on is never reached.
   */
  lemma {:induction false} FitAsWrittenAgrees(acc: Acc, word: string, cpl: int)
    requires cpl >= 2 && EdgeCut(word)
    ensures FitAsWritten(acc, word, cpl) == Fit(acc, word, cpl)
    decreases |word|, 1
  {
    if |word| > cpl {
      HyphenateAsWrittenAgrees(acc, word, cpl);
    }
  }

  /**
   * forceHyphenate as written equals the corrected one on every word
   * appendFitting gives it: the remainder after the cut keeps the word's last
   * character, so its rightmost delimiter is at its end or absent, and the
   * recursive appendFitting never takes the delimiter branch.
   */
  lemma {:induction false} HyphenateAsWrittenAgrees(acc: Acc, word: string, cpl: int)
    requires 2 <= cpl < |word| && EdgeCut(word)
    ensures HyphenateAsWritten(acc, word, cpl) == Hyphenate(acc, word, cpl)
    decreases |word|, 0
  {
    var idx := HyphenCut(word, cpl);
    RemainderEdgeCut(word, idx);
    FitAsWrittenAgrees(Acc(Flush(acc) + [word[..idx] + "-"], ""), word[idx..], cpl);
  }

  /**
   * So what HyphenateSound proves holds of forceHyphenate as written on every
   * word appendFitting gives it: lines within cpl, a non-empty buffer, and
   * the content kept with only '-' inserted.
   */
  lemma HyphenateAsWrittenSound(acc: Acc, word: string, cpl: int)
    requires 2 <= cpl < |word| && |acc.line| <= cpl && EdgeCut(word)
    ensures Sound(acc.out, HyphenateAsWritten(acc, word, cpl), cpl, acc.line + word)
    ensures HyphenateAsWritten(acc, word, cpl).line != ""
  {
    HyphenateAsWrittenAgrees(acc, word, cpl);
    HyphenateSound(acc, word, cpl);
  }

  // ---------------------------------------------------------------------
  // The greedy loop of wrapSmart
  // ---------------------------------------------------------------------

  /** One iteration of wrapSmart's loop over the words. */
  function Step(acc: Acc, w: string, cpl: int): Acc
    requires cpl >= 2
  {
    if |acc.line| == 0 then Fit(acc, w, cpl)
    else if |acc.line| + 1 + |w| <= cpl then Acc(acc.out, acc.line + " " + w)
    else Fit(Acc(acc.out + [acc.line], ""), w, cpl)
  }

  /** The state after the loop has consumed all of words. */
  function Pack(words: seq<string>, cpl: int): Acc
    requires cpl >= 2
  {
    if words == [] then Acc([], "") else Step(Pack(words[..|words| - 1], cpl), words[|words| - 1], cpl)
  }

  /**
   * The greedy loop emits only non-empty lines of at most cpl characters,
   * keeps a buffer of at most cpl characters, produces nothing at all exactly
   * when every word is empty, and keeps every non-whitespace character of every
   * word in order, inserting only '-' characters.
   */
  lemma {:induction false} PackSound(words: seq<string>, cpl: int)
    requires cpl >= 2
    ensures Sound([], Pack(words, cpl), cpl, Concat(words))
    ensures Pack(words, cpl).out == [] && Pack(words, cpl).line == "" <==> Concat(words) == ""
    decreases |words|
  {
    if words == [] {
      assert Concat([]) + "" == "";
    } else {
      var init, w := words[..|words| - 1], words[|words| - 1];
      PackSound(init, cpl);
      var a := Pack(init, cpl);
      assert Concat(words) == Concat(init) + w;
      var r := Step(a, w, cpl);
      if |a.line| == 0 {
        FitSound(a, w, cpl);
        ChainEmpty([], a, r, cpl, Concat(init), w);
      } else if |a.line| + 1 + |w| <= cpl {
        JoinSound(a, w, cpl, Concat(init));
      } else {
        var b := Acc(a.out + [a.line], "");
        FitSound(b, w, cpl);
        Chain([], a, r, cpl, Concat(init), w);
      }
    }
  }

  /** Joining a word to the buffer with one space keeps soundness. */
  lemma {:induction false} JoinSound(a: Acc, w: string, cpl: int, src: string)
    requires Sound([], a, cpl, src) && |a.line| + 1 + |w| <= cpl
    ensures Sound([], Acc(a.out, a.line + " " + w), cpl, src + w)
  {
    assert a.out[0..] == a.out;
    var prev := Concat(a.out) + a.line;
    assert Concat(a.out) + (a.line + " " + w) == prev + (" " + w);
    NonSpaceAppend(prev, " " + w);
    NonSpaceAppend(" ", w);
    NonSpaceOne(' ');
    assert NonSpace(" " + w) == NonSpace(w);
    NonSpaceAppend(src, w);
    HyphenedSame(NonSpace(w));
    HyphenedAppend(NonSpace(src), NonSpace(prev), NonSpace(w), NonSpace(w));
    assert NonSpace(prev + (" " + w)) == NonSpace(prev) + NonSpace(w);
  }

  // ---------------------------------------------------------------------
  // The anti-orphan pass
  // ---------------------------------------------------------------------

  /** The last line is an orphan: shorter than max(6, cpl * 0.25), computed in double. */
  predicate IsOrphan(lastLen: nat, cpl: int)
  {
    (lastLen as real) < (if 6.0 >= (cpl as real) * 0.25 then 6.0 else (cpl as real) * 0.25)
  }

  /**
   * One anti-orphan pass: with at least two lines and an orphan last line,
   * the last space-separated word of the second-to-last line is moved to the
   * front of the last line, provided that line has a space after position 0.
   */
  function FixOrphan(lines: seq<string>, cpl: int): seq<string>
  {
    var n := |lines|;
    if n >= 2 && IsOrphan(|lines[n - 1]|, cpl) then
      var prev := lines[n - 2];
      var cut := LastIndexOf(prev, ' ');
      if cut > 0 then lines[..n - 2] + [prev[..cut], prev[cut + 1..] + " " + lines[n - 1]]
      else lines
    else lines
  }

  /**
   * The anti-orphan pass keeps the line count and every line before the last
   * two; it changes something exactly when there are two or more lines, the
   * last is an orphan and the second-to-last has a space after position 0; and
   * then it moves exactly the space-free last word of that line to the front
   * of the last line.
   */
  lemma {:induction false} FixOrphanSpec(lines: seq<string>, cpl: int)
    ensures var r := FixOrphan(lines, cpl);
      && |r| == |lines|
      && (|lines| >= 2 ==> r[..|lines| - 2] == lines[..|lines| - 2])
      && (r != lines <==>
            |lines| >= 2 && IsOrphan(|lines[|lines| - 1]|, cpl) && LastIndexOf(lines[|lines| - 2], ' ') > 0)
      && (r != lines ==>
            var n := |lines|;
            var move := lines[n - 2][LastIndexOf(lines[n - 2], ' ') + 1..];
            && ' ' !in move
            && r[n - 2] + " " + move == lines[n - 2]
            && r[n - 1] == move + " " + lines[n - 1]
            && r[n - 2] != "")
  {
    var n := |lines|;
    if n >= 2 && IsOrphan(|lines[n - 1]|, cpl) && LastIndexOf(lines[n - 2], ' ') > 0 {
      var prev := lines[n - 2];
      var cut := LastIndexOf(prev, ' ');
      var r := FixOrphan(lines, cpl);
      assert r[n - 1] == prev[cut + 1..] + " " + lines[n - 1];
      assert r[n - 1] != lines[n - 1];
      assert prev == prev[..cut] + " " + prev[cut + 1..];
    }
  }

  /** The anti-orphan pass loses no content. */
  lemma {:induction false} FixOrphanContent(lines: seq<string>, cpl: int)
    ensures NonSpace(Concat(FixOrphan(lines, cpl))) == NonSpace(Concat(lines))
  {
    var r := FixOrphan(lines, cpl);
    var n := |lines|;
    if r != lines {
      var prev, last := lines[n - 2], lines[n - 1];
      var cut := LastIndexOf(prev, ' ');
      var head, move := prev[..cut], prev[cut + 1..];
      var front := lines[..n - 2];
      assert lines == front + [prev, last];
      assert r == front + [head, move + " " + last];
      ConcatAppend(front, [prev, last]);
      ConcatAppend(front, [head, move + " " + last]);
      ConcatPair(prev, last);
      ConcatPair(head, move + " " + last);
      MoveWordContent(head, move, last);
      assert prev == head + " " + move;
      NonSpaceAppend(Concat(front), prev + last);
      NonSpaceAppend(Concat(front), head + (move + " " + last));
    }
  }

  /** Moving a word across a space boundary keeps the content. */
  lemma {:induction false} MoveWordContent(head: string, move: string, last: string)
    ensures NonSpace(head + " " + move + last) == NonSpace(head + (move + " " + last))
  {
    var x := head + " " + move + last;
    var y := head + (move + " " + last);
    assert x == (head + " ") + (move + last);
    assert y == head + ((move + " ") + last);
    NonSpaceOne(' ');
    NonSpaceAppend(head + " ", move + last);
    NonSpaceAppend(head, " ");
    NonSpaceAppend(move, last);
    NonSpaceAppend(head, (move + " ") + last);
    NonSpaceAppend(move + " ", last);
    NonSpaceAppend(move, " ");
  }

  lemma ConcatOne(x: string)
    ensures Concat([x]) == x
  {
    assert [x][..0] == [];
  }

  lemma ConcatPair(a: string, b: string)
    ensures Concat([a, b]) == a + b
  {
    assert [a, b][..1] == [a];
    ConcatOne(a);
  }

  // ---------------------------------------------------------------------
  // wrapSmart
  // ---------------------------------------------------------------------

  /** The lines of the greedy loop, with the last buffer flushed when non-empty. */
  function GreedyLines(text: string, cpl: int): seq<string>
    requires cpl >= 2
  {
    Flush(Pack(SplitWords(Trim(text)), cpl))
  }

  /** wrapSmart: [""] for blank text, otherwise the greedy lines after one anti-orphan pass. */
  function Wrap(text: string, cpl: int): seq<string>
    requires cpl >= 2
  {
    if IsBlank(text) then [""] else FixOrphan(GreedyLines(text, cpl), cpl)
  }

  /** The words of a non-empty trimmed text are not all empty. */
  lemma WordsOfTrimmed(t: string)
    requires t != [] && !IsRegexSpace(t[0])
    ensures Concat(SplitWords(t)) != ""
  {
    var pieces := SplitWhere(t, IsRegexSpace);
    var n := CountUntil(t, IsRegexSpace);
    assert pieces[0] == t[..n] && n >= 1;
    NonEmptyHead(pieces);
    ConcatHead(NonEmpty(pieces));
  }

  lemma NonEmptyHead(xs: seq<string>)
    requires xs != [] && xs[0] != []
    ensures NonEmpty(xs) != [] && NonEmpty(xs)[0] == xs[0]
  {}

  lemma {:induction false} ConcatHead(xs: seq<string>)
    requires xs != [] && xs[0] != []
    ensures Concat(xs) != ""
  {
    ConcatAppend([xs[0]], xs[1..]);
    assert [xs[0]] + xs[1..] == xs;
    assert Concat([xs[0]]) == xs[0] by { assert [xs[0]][..0] == []; }
  }

  /** The words carry the content of the text they were split from. */
  lemma {:induction false} NonSpaceWords(t: string)
    ensures NonSpace(Concat(SplitWords(t))) == NonSpace(t)
  {
    if t != [] {
      NonSpaceSplit(t);
      ConcatNonEmpty(SplitWhere(t, IsRegexSpace));
    } else {
      assert Concat([""]) == "" by { assert [""][..0] == []; }
    }
  }

  lemma {:induction false} ConcatNonEmpty(xs: seq<string>)
    ensures Concat(NonEmpty(xs)) == Concat(xs)
    decreases |xs|
  {
    if xs != [] {
      ConcatNonEmpty(xs[1..]);
      assert xs == [xs[0]] + xs[1..];
      ConcatAppend([xs[0]], xs[1..]);
      assert Concat([xs[0]]) == xs[0] by { assert [xs[0]][..0] == []; }
      if xs[0] != [] {
        ConcatAppend([xs[0]], NonEmpty(xs[1..]));
      }
    }
  }

  lemma {:induction false} NonSpaceSplit(s: string)
    ensures NonSpace(Concat(SplitWhere(s, IsRegexSpace))) == NonSpace(s)
    decreases |s|
  {
    var n := CountUntil(s, IsRegexSpace);
    if n == |s| {
      assert Concat([s]) == s by { assert [s][..0] == []; }
    } else {
      var rest := SplitWhere(s[n + 1..], IsRegexSpace);
      assert SplitWhere(s, IsRegexSpace) == [s[..n]] + rest;
      NonSpaceSplit(s[n + 1..]);
      ConcatAppend([s[..n]], rest);
      assert Concat([s[..n]]) == s[..n] by { assert [s[..n]][..0] == []; }
      NonSpaceAround(s, n);
      NonSpaceAppend(s[..n], Concat(rest));
    }
  }

  /** A whitespace character at n drops out: the content is that of the parts on both sides of it. */
  lemma NonSpaceAround(s: string, n: nat)
    requires n < |s| && IsRegexSpace(s[n])
    ensures NonSpace(s) == NonSpace(s[..n]) + NonSpace(s[n + 1..])
  {
    assert s == s[..n] + [s[n]] + s[n + 1..];
    NonSpaceAppend(s[..n] + [s[n]], s[n + 1..]);
    NonSpaceAppend(s[..n], [s[n]]);
    NonSpaceOne(s[n]);
    AppendNil(NonSpace(s[..n]));
  }

  /**
   * wrapSmart's promises: blank text gives [""]; otherwise the result is empty
   * only when the trimmed text is (text of control characters alone), every
   * line is non-empty, every line but the last has at most cpl characters,
   * and the lines hold the trimmed text's non-whitespace characters in order,
   * none lost, with only '-' characters inserted.
   */
  lemma {:induction false} WrapSpec(text: string, cpl: int)
    requires cpl >= 2
    ensures var out := Wrap(text, cpl);
      && (IsBlank(text) ==> out == [""])
      && (!IsBlank(text) ==>
            && (out == [] <==> Trim(text) == "")
            && (forall k :: 0 <= k < |out| ==> out[k] != "")
            && (forall k :: 0 <= k < |out| - 1 ==> |out[k]| <= cpl)
            && Hyphened(NonSpace(Trim(text)), NonSpace(Concat(out))))
  {
    if !IsBlank(text) {
      var g := GreedyLines(text, cpl);
      GreedySpec(text, cpl);
      FixOrphanContent(g, cpl);
      OrphanLines(g, cpl);
    }
  }

  /**
   * After the anti-orphan pass over lines that fit, every line is still
   * non-empty and every line but the last still fits: only the last line
   * grows.
   */
  lemma OrphanLines(g: seq<string>, cpl: int)
    requires LinesWithin(g, cpl)
    ensures var out := FixOrphan(g, cpl);
      && |out| == |g|
      && (forall k :: 0 <= k < |out| ==> out[k] != "")
      && (forall k :: 0 <= k < |out| - 1 ==> |out[k]| <= cpl)
  {
    FixOrphanSpec(g, cpl);
    var out := FixOrphan(g, cpl);
    var n := |g|;
    forall k | 0 <= k < |out|
      ensures out[k] != "" && (k < |out| - 1 ==> |out[k]| <= cpl)
    {
      if out != g && k >= n - 2 {
        if k == n - 2 {
          assert |out[k]| < |g[k]|;
        }
      } else if out != g {
        assert out[..n - 2][k] == g[..n - 2][k];
      }
    }
  }

  /** The greedy lines of a non-blank text: within cpl, empty only for an empty trim, content kept. */
  lemma {:induction false} GreedySpec(text: string, cpl: int)
    requires cpl >= 2 && !IsBlank(text)
    ensures var g := GreedyLines(text, cpl);
      && LinesWithin(g, cpl)
      && (g == [] <==> Trim(text) == "")
      && Hyphened(NonSpace(Trim(text)), NonSpace(Concat(g)))
  {
    var t := Trim(text);
    var words := SplitWords(t);
    var p := Pack(words, cpl);
    PackSound(words, cpl);
    NonSpaceWords(t);
    FlushedSound(p, cpl, Concat(words));
    if t != [] {
      WordsOfTrimmed(t);
    } else {
      assert words == [""];
      ConcatOne("");
    }
  }

  /** Flushing a sound state of the whole input: lines that fit, holding all of its content. */
  lemma FlushedSound(p: Acc, cpl: int, src: string)
    requires Sound([], p, cpl, src)
    ensures LinesWithin(Flush(p), cpl)
    ensures Hyphened(NonSpace(src), NonSpace(Concat(Flush(p))))
    ensures Flush(p) == [] <==> p.out == [] && p.line == ""
  {
    assert p.out[0..] == p.out;
    if |p.line| > 0 {
      ConcatAppend(p.out, [p.line]);
      ConcatOne(p.line);
      var g := Flush(p);
      forall k | 0 <= k < |g| ensures 1 <= |g[k]| <= cpl {
        if k < |p.out| { assert g[k] == p.out[k]; } else { assert g[k] == p.line; }
      }
    } else {
      AppendNil(Concat(p.out));
    }
  }

  // ---------------------------------------------------------------------
  // wrapSmart with appendFitting exactly as written
  // ---------------------------------------------------------------------

  /** One iteration of wrapSmart's loop, with appendFitting as the source has it. */
  function StepAsWritten(acc: Acc, w: string, cpl: int): Acc
    requires cpl >= 2
  {
    if |acc.line| == 0 then FitAsWritten(acc, w, cpl)
    else if |acc.line| + 1 + |w| <= cpl then Acc(acc.out, acc.line + " " + w)
    else FitAsWritten(Acc(acc.out + [acc.line], ""), w, cpl)
  }

  /** The state after the loop, as written, has consumed all of words. */
  function PackAsWritten(words: seq<string>, cpl: int): Acc
    requires cpl >= 2
  {
    if words == [] then Acc([], "") else StepAsWritten(PackAsWritten(words[..|words| - 1], cpl), words[|words| - 1], cpl)
  }

  /** The lines before the anti-orphan pass, as written. */
  function GreedyLinesAsWritten(text: string, cpl: int): seq<string>
    requires cpl >= 2
  {
    Flush(PackAsWritten(SplitWords(Trim(text)), cpl))
  }

  /** wrapSmart as the source has it. */
  function WrapAsWritten(text: string, cpl: int): seq<string>
    requires cpl >= 2
  {
    if IsBlank(text) then [""] else FixOrphan(GreedyLinesAsWritten(text, cpl), cpl)
  }

  /** The loop as written emits only non-empty lines of at most cpl characters and keeps the buffer within cpl. */
  lemma {:induction false} PackAsWrittenWithin(words: seq<string>, cpl: int)
    requires cpl >= 2
    ensures Within([], PackAsWritten(words, cpl), cpl)
    decreases |words|
  {
    if words == [] {
      assert PackAsWritten(words, cpl).out[0..] == [];
    } else {
      var init, w := words[..|words| - 1], words[|words| - 1];
      PackAsWrittenWithin(init, cpl);
      var a := PackAsWritten(init, cpl);
      var r := StepAsWritten(a, w, cpl);
      if |a.line| == 0 {
        FitAsWrittenWithin(a, w, cpl);
        ChainEmptyLines([], a, r, cpl);
      } else if |a.line| + 1 + |w| <= cpl {
        assert r.out == a.out;
      } else {
        var b := Acc(a.out + [a.line], "");
        FitAsWrittenWithin(b, w, cpl);
        ChainLines([], a, r, cpl);
      }
    }
  }

  /** Before the anti-orphan pass, every line wrapSmart as written emits is non-empty and at most cpl long. */
  lemma GreedyAsWrittenWithin(text: string, cpl: int)
    requires cpl >= 2
    ensures LinesWithin(GreedyLinesAsWritten(text, cpl), cpl)
  {
    var p := PackAsWritten(SplitWords(Trim(text)), cpl);
    PackAsWrittenWithin(SplitWords(Trim(text)), cpl);
    assert p.out[0..] == p.out;
    var f := Flush(p);
    forall k | 0 <= k < |f| ensures 1 <= |f[k]| <= cpl {
      if k < |p.out| { assert f[k] == p.out[k]; }
    }
  }

  /**
   * wrapSmart as written: blank text gives [""]; otherwise every line is
   * non-empty and every line but the last has at most cpl characters.
   */
  lemma WrapAsWrittenWithin(text: string, cpl: int)
    requires cpl >= 2
    ensures var out := WrapAsWritten(text, cpl);
      && (IsBlank(text) ==> out == [""])
      && (!IsBlank(text) ==>
            && (forall k :: 0 <= k < |out| ==> out[k] != "")
            && (forall k :: 0 <= k < |out| - 1 ==> |out[k]| <= cpl))
  {
    if !IsBlank(text) {
      GreedyAsWrittenWithin(text, cpl);
      OrphanLines(GreedyLinesAsWritten(text, cpl), cpl);
    }
  }

  // ---------------------------------------------------------------------
  // Texts of three words
  // ---------------------------------------------------------------------

  /** n copies of c. */
  function Run(c: char, n: nat): (r: string)
    ensures |r| == n && forall i :: 0 <= i < n ==> r[i] == c
  {
    seq(n, _ => c)
  }

  /** No character of w is whitespace to `\s`. */
  predicate SpaceFree(w: string)
  {
    forall i :: 0 <= i < |w| ==> !IsRegexSpace(w[i])
  }

  /** A whitespace-free word followed by a whitespace character is split off as one piece. */
  lemma SplitWhereWord(w: string, rest: string)
    requires SpaceFree(w)
    requires rest != [] && IsRegexSpace(rest[0])
    ensures SplitWhere(w + rest, IsRegexSpace) == [w] + SplitWhere(rest[1..], IsRegexSpace)
  {
    var s := w + rest;
    var n := CountUntil(s, IsRegexSpace);
    assert s[|w|] == rest[0];
    assert forall i :: 0 <= i < |w| ==> s[i] == w[i];
    assert n == |w|;
    assert s[..n] == w && s[n + 1..] == rest[1..];
  }

  /** A whitespace-free word is one piece. */
  lemma SplitWhereLast(w: string)
    requires SpaceFree(w)
    ensures SplitWhere(w, IsRegexSpace) == [w]
  {
    assert CountUntil(w, IsRegexSpace) == |w|;
  }

  /** A whitespace-free word, a space and more text: the word, then the pieces of the rest. */
  lemma SplitFirst(a: string, rest: string)
    requires SpaceFree(a)
    ensures SplitWhere(a + " " + rest, IsRegexSpace) == [a] + SplitWhere(rest, IsRegexSpace)
  {
    AppendAssoc(a, " ", rest);
    SplitWhereWord(a, " " + rest);
    DropAppend(" ", rest, 0);
  }

  /** Three whitespace-free words joined by single spaces split back into those words. */
  lemma SplitThree(a: string, b: string, c: string)
    requires SpaceFree(a) && SpaceFree(b) && SpaceFree(c)
    ensures SplitWhere(a + " " + b + " " + c, IsRegexSpace) == [a, b, c]
  {
    var bc := b + " " + c;
    assert SplitWhere(bc, IsRegexSpace) == [b, c] by {
      SplitFirst(b, c);
      SplitWhereLast(c);
    }
    AppendAssoc(a + " ", b, " " + c);
    AppendAssoc(a + " " + b, " ", c);
    AppendAssoc(b, " ", c);
    assert a + " " + b + " " + c == a + " " + bc;
    SplitFirst(a, bc);
  }

  /** Two short words share a line; the third does not fit after them and waits in the buffer. */
  lemma PackJoined(a: string, b: string, c: string, cpl: int)
    requires cpl >= 2 && 0 < |a| && |a| + 1 + |b| <= cpl && |c| <= cpl
    requires |a| + 1 + |b| + 1 + |c| > cpl
    ensures Pack([a, b, c], cpl) == Acc([a + " " + b], c)
  {
    var words := [a, b, c];
    assert words[..2] == [a, b] && [a, b][..1] == [a] && [a][..0] == [];
    assert Pack([a], cpl) == Acc([], a);
    assert Pack([a, b], cpl) == Acc([], a + " " + b);
  }

  /** Each of three words too long to join its neighbour goes on a line of its own. */
  lemma PackApart(a: string, b: string, c: string, cpl: int)
    requires cpl >= 2 && 0 < |a| <= cpl && 0 < |b| <= cpl && |c| <= cpl
    requires |a| + 1 + |b| > cpl && |b| + 1 + |c| > cpl
    ensures Pack([a, b, c], cpl) == Acc([a, b], c)
  {
    var words := [a, b, c];
    assert words[..2] == [a, b] && [a, b][..1] == [a] && [a][..0] == [];
    assert Pack([a], cpl) == Acc([], a);
    assert Pack([a, b], cpl) == Acc([a], b);
  }

  /** Below an orphan, the last word of the line above moves down. */
  lemma OrphanPulled(a: string, b: string, c: string, cpl: int)
    requires 0 < |a| && ' ' !in b && IsOrphan(|c|, cpl)
    ensures FixOrphan([a + " " + b, c], cpl) == [a, b + " " + c]
  {
    var prev := a + " " + b;
    assert prev[|a|] == ' ';
    assert forall j :: |a| < j < |prev| ==> prev[j] == b[j - |a| - 1];
    assert LastIndexOf(prev, ' ') == |a|;
    assert prev[..|a|] == a && prev[|a| + 1..] == b;
  }

  /** Below an orphan, a line without a space stays as it is. */
  lemma OrphanStays(a: string, b: string, c: string, cpl: int)
    requires ' ' !in b
    ensures FixOrphan([a, b, c], cpl) == [a, b, c]
  {
    assert LastIndexOf(b, ' ') == -1;
  }

  /** The lines of three words, the first two sharing a line and the third an orphan below them. */
  lemma LinesJoined(a: string, b: string, c: string, cpl: int)
    requires cpl >= 2 && 0 < |a| && |a| + 1 + |b| <= cpl && 0 < |c| <= cpl
    requires |a| + 1 + |b| + 1 + |c| > cpl && ' ' !in b && IsOrphan(|c|, cpl)
    ensures FixOrphan(Flush(Pack([a, b, c], cpl)), cpl) == [a, b + " " + c]
  {
    PackJoined(a, b, c, cpl);
    assert Flush(Pack([a, b, c], cpl)) == [a + " " + b, c];
    OrphanPulled(a, b, c, cpl);
  }

  /** The lines of three words, each on a line of its own, the middle one without a space. */
  lemma LinesApart(a: string, b: string, c: string, cpl: int)
    requires cpl >= 2 && 0 < |a| <= cpl && 0 < |b| <= cpl && 0 < |c| <= cpl
    requires |a| + 1 + |b| > cpl && |b| + 1 + |c| > cpl && ' ' !in b
    ensures FixOrphan(Flush(Pack([a, b, c], cpl)), cpl) == [a, b, c]
  {
    PackApart(a, b, c, cpl);
    assert Flush(Pack([a, b, c], cpl)) == [a, b, c];
    OrphanStays(a, b, c, cpl);
  }

  /**
   * Three whitespace-free words joined by single spaces, the first starting
   * and the last ending in a character trim() keeps: the text is not blank,
   * trim() leaves it alone, and its words are those three.
   */
  lemma ThreeWords(a: string, b: string, c: string)
    requires SpaceFree(a) && SpaceFree(b) && SpaceFree(c)
    requires 0 < |a| && 0 < |b| && 0 < |c| && !IsTrimmable(c[|c| - 1])
    requires !IsTrimmable(a[0]) && !IsWhitespace(a[0])
    ensures var t := a + " " + b + " " + c;
      !IsBlank(t) && Trim(t) == t && SplitWords(t) == [a, b, c]
  {
    var t := a + " " + b + " " + c;
    assert t[0] == a[0] && t[|t| - 1] == c[|c| - 1];
    assert !IsWhitespace(t[0]);
    TrimNoop(t);
    SplitThree(a, b, c);
    assert NonEmpty([c]) == [c] by {
      assert [c][1..] == [];
    }
    assert NonEmpty([b, c]) == [b, c] by {
      assert [b, c][1..] == [c];
    }
    assert NonEmpty([a, b, c]) == [a, b, c] by {
      assert [a, b, c][1..] == [b, c];
    }
  }

  /**
   * The design's example: "AAAA BBBBBBBBBB CCCC" at 10 characters is three
   * lines, one per word. "CCCC" is an orphan, but the line above it has no
   * space, so nothing moves.
   */
  lemma WrapThreeLines()
    ensures Wrap("AAAA " + Run('B', 10) + " CCCC", 10) == ["AAAA", Run('B', 10), "CCCC"]
  {
    var a, b, c := "AAAA", Run('B', 10), "CCCC";
    assert "AAAA " + b + " CCCC" == a + " " + b + " " + c;
    ThreeWords(a, b, c);
    LinesApart(a, b, c, 10);
  }

  // ---------------------------------------------------------------------
  // The imperative wrapper, as the Java runs it
  // ---------------------------------------------------------------------

  /** appendFitting on the shared accumulator (corrected: the right part is always wrapped). */
  method AppendFitting(out: seq<string>, line: string, word: string, cpl: int)
    returns (out': seq<string>, line': string)
    requires cpl >= 2
    ensures Acc(out', line') == Fit(Acc(out, line), word, cpl)
    decreases |word|, 1
  {
    if |word| <= cpl {
      return out, line + word;
    }
    var cut := DelimiterCut(word);
    if 0 < cut < |word| - 1 {
      var left, right := word[..cut + 1], word[cut + 1..];
      out', line' := out, line;
      if |left| > cpl {
        out', line' := ForceHyphenate(out', line', left, cpl);
      } else {
        line' := line' + left;
      }
      out' := out' + [line'];
      line' := "";
      out', line' := AppendFitting(out', line', right, cpl);
      return;
    }
    out', line' := ForceHyphenate(out, line, word, cpl);
  }

  /** forceHyphenate on the shared accumulator. */
  method ForceHyphenate(out: seq<string>, line: string, word: string, cpl: int)
    returns (out': seq<string>, line': string)
    requires 2 <= cpl < |word|
    ensures Acc(out', line') == Hyphenate(Acc(out, line), word, cpl)
    decreases |word|, 0
  {
    var idx := HyphenCut(word, cpl);
    var left := word[..idx] + "-";
    var right := word[idx..];
    out', line' := out, line;
    if |line'| > 0 {
      out' := out' + [line'];
      line' := "";
    }
    out' := out' + [left];
    out', line' := AppendFitting(out', line', right, cpl);
  }

  /**
   * wrapSmart: the greedy loop over the words, the final flush and the
   * anti-orphan pass, building the list in place.
   */
  method WrapSmart(text: string, cpl: int) returns (out: seq<string>)
    requires cpl >= 2
    ensures out == Wrap(text, cpl)
    ensures IsBlank(text) ==> out == [""]
    ensures !IsBlank(text) ==> (out == [] <==> Trim(text) == "")
    ensures !IsBlank(text) ==> forall k :: 0 <= k < |out| - 1 ==> |out[k]| <= cpl
    ensures !IsBlank(text) ==> Hyphened(NonSpace(Trim(text)), NonSpace(Concat(out)))
  {
    WrapSpec(text, cpl);
    if IsBlank(text) {
      return [""];
    }
    out := GreedyLoop(SplitWords(Trim(text)), cpl);
    out := PullUpOrphan(out, cpl);
  }

  /** The for-each loop of wrapSmart and its final flush. */
  method GreedyLoop(words: seq<string>, cpl: int) returns (out: seq<string>)
    requires cpl >= 2
    ensures out == Flush(Pack(words, cpl))
  {
    out := [];
    var line := "";
    for i := 0 to |words|
      invariant Acc(out, line) == Pack(words[..i], cpl)
    {
      assert words[..i + 1][..i] == words[..i];
      var w := words[i];
      if |line| == 0 {
        out, line := AppendFitting(out, line, w, cpl);
      } else if |line| + 1 + |w| <= cpl {
        line := line + " " + w;
      } else {
        out := out + [line];
        line := "";
        out, line := AppendFitting(out, line, w, cpl);
      }
    }
    assert words[..|words|] == words;
    if |line| > 0 {
      out := out + [line];
    }
  }

  /** The anti-orphan pass of wrapSmart, replacing the last two entries in place. */
  method PullUpOrphan(lines: seq<string>, cpl: int) returns (out: seq<string>)
    ensures out == FixOrphan(lines, cpl)
  {
    out := lines;
    var n := |out|;
    if n >= 2 && IsOrphan(|out[n - 1]|, cpl) {
      var prev := out[n - 2];
      var cut := LastIndexOf(prev, ' ');
      if cut > 0 {
        var move := prev[cut + 1..];
        out := out[n - 2 := prev[..cut]];
        out := out[n - 1 := move + " " + out[n - 1]];
        assert out == lines[..n - 2] + [prev[..cut], move + " " + lines[n - 1]];
      }
    }
  }
}
