/**
 * Font fitting of PresentationCreator2: an estimate of how many characters
 * fit on a line at a given point size, a test whether a text wrapped at that
 * width fits a box, and a bisection over the point size.
 *
 * Java's double arithmetic is modelled with real numbers.
 */
module FontFit {
  import opened JavaText
  import opened WordWrap

  /** Height of one body line per point of font size. */
  const BODY_LINE_H_K: real := 5.16

  /** The bisection stops after this many halvings at the latest. */
  const MAX_ITERATIONS: nat := 18

  /**
   * charsPerLine: the box width less 10 divided by the average glyph width
   * (0.52 of the point size, but at least 5.5), rounded down, and never
   * less than 12.
   */
  function CharsPerLine(boxW: real, pt: real): (cpl: int)
    ensures cpl >= 12
  {
    var n := ((boxW - 10.0) / Glyph(pt)).Floor;
    if n >= 12 then n else 12
  }

  /** The average glyph width at a point size: 0.52 of it, but at least 5.5. */
  function Glyph(pt: real): (g: real)
    ensures g >= 5.5
  {
    MaxReal(5.5, pt * 0.52)
  }

  /** Beyond the minimum of 12, cpl glyphs fit in the box width less 10, and cpl + 1 do not. */
  lemma CharsPerLineMeaning(boxW: real, pt: real)
    ensures var cpl := CharsPerLine(boxW, pt);
      cpl == 12 || ((cpl as real) * Glyph(pt) <= boxW - 10.0 < ((cpl + 1) as real) * Glyph(pt))
  {
    FloorOfQuotient(boxW - 10.0, Glyph(pt));
  }

  /** The floor of x / d, for positive d, is the largest n with n * d <= x. */
  lemma FloorOfQuotient(x: real, d: real)
    requires d > 0.0
    ensures var n := (x / d).Floor; (n as real) * d <= x < ((n + 1) as real) * d
  {
    var q := x / d;
    var n := q.Floor;
    assert q * d == x;
    assert n as real <= q < (n + 1) as real;
    MulMonotone(n as real, q, d);
    assert (n as real) * d <= x;
    MulStrict(q, (n + 1) as real, d);
    assert x < ((n + 1) as real) * d;
  }

  lemma MulMonotone(a: real, b: real, d: real)
    requires a <= b && d >= 0.0
    ensures a * d <= b * d
  {}

  lemma MulStrict(a: real, b: real, d: real)
    requires a < b && d > 0.0
    ensures a * d < b * d
  {}

  /** With the same product x, the factor paired with the larger width is the smaller one. */
  lemma QuotientOrder(x: real, q1: real, q2: real, g1: real, g2: real)
    requires q1 * g1 == x && q2 * g2 == x && 0.0 <= q1 && 0.0 < g1 <= g2
    ensures q2 <= q1
  {
    MulMonotone(g1, g2, q1);
    if q2 > q1 {
      MulStrict(q1, q2, g2);
    }
  }

  /** A larger font never gets more characters per line. */
  lemma CharsPerLineAntitone(boxW: real, pt1: real, pt2: real)
    requires pt1 <= pt2
    ensures CharsPerLine(boxW, pt2) <= CharsPerLine(boxW, pt1)
  {
    var g1, g2 := Glyph(pt1), Glyph(pt2);
    var x := boxW - 10.0;
    var q1, q2 := x / g1, x / g2;
    assert q1 * g1 == x && q2 * g2 == x;
    assert g1 <= g2;
    if x >= 0.0 {
      assert q1 >= 0.0;
      QuotientOrder(x, q1, q2, g1, g2);
      assert q2.Floor <= q1.Floor;
    } else {
      assert q2 < 0.0;
      assert q1 < 0.0;
    }
  }

  /** The longest line's length, 0 for no lines. */
  function MaxLen(lines: seq<string>): (m: nat)
    ensures forall k :: 0 <= k < |lines| ==> |lines[k]| <= m
    ensures lines == [] ==> m == 0
    ensures lines != [] ==> exists k :: 0 <= k < |lines| && |lines[k]| == m
  {
    if lines == [] then 0
    else
      var m := MaxLen(lines[..|lines| - 1]);
      var last := |lines[|lines| - 1]|;
      if last >= m then last else m
  }

  /** maxLineLength: the loop over the lines, keeping the running maximum. */
  method MaxLineLength(lines: seq<string>) returns (m: nat)
    ensures m == MaxLen(lines)
  {
    m := 0;
    for i := 0 to |lines|
      invariant m == MaxLen(lines[..i])
    {
      assert lines[..i + 1][..i] == lines[..i];
      if |lines[i]| >= m {
        m := |lines[i]|;
      }
    }
    assert lines[..|lines|] == lines;
  }

  /** The lines of every paragraph, each wrapped at cpl, one after the other. */
  function WrapParagraphs(paras: seq<string>, cpl: int): seq<string>
    requires cpl >= 2
  {
    if paras == [] then []
    else WrapParagraphs(paras[..|paras| - 1], cpl) + Wrap(paras[|paras| - 1], cpl)
  }

  /** The lines a text is laid out in at a point size: its '\n'-separated paragraphs wrapped one by one. */
  function LaidOut(text: string, boxW: real, pt: real): seq<string>
  {
    WrapParagraphs(SplitOnChar(text, '\n'), CharsPerLine(boxW, pt))
  }

  /** fits: the laid-out lines are no taller than the box and none is longer than a line holds. */
  predicate Fits(text: string, boxW: real, boxH: real, pt: real)
  {
    LinesFit(LaidOut(text, boxW, pt), CharsPerLine(boxW, pt), boxH, pt)
  }

  /** The lines are no taller than the box at this size, and none is longer than cpl. */
  predicate LinesFit(lines: seq<string>, cpl: int, boxH: real, pt: real)
  {
    TotalHeight(|lines|, pt) <= boxH && MaxLen(lines) <= cpl
  }

  /** The height of count body lines at a point size. */
  function TotalHeight(count: nat, pt: real): real
  {
    (count as real) * (pt * BODY_LINE_H_K)
  }

  /** fits, computed as the Java does: wrap paragraph by paragraph into one list, then measure it. */
  method CheckFits(text: string, boxW: real, boxH: real, pt: real) returns (b: bool)
    ensures b == Fits(text, boxW, boxH, pt)
  {
    var cpl := CharsPerLine(boxW, pt);
    var lines := WrapEach(SplitOnChar(text, '\n'), cpl);
    var totalH := TotalHeight(|lines|, pt);
    var longest := MaxLineLength(lines);
    assert lines == LaidOut(text, boxW, pt);
    b := totalH <= boxH && longest <= cpl;
  }

  /** The paragraph loop of fits: every paragraph's lines appended to one list. */
  method WrapEach(paras: seq<string>, cpl: int) returns (lines: seq<string>)
    requires cpl >= 2
    ensures lines == WrapParagraphs(paras, cpl)
  {
    lines := [];
    for i := 0 to |paras|
      invariant lines == WrapParagraphs(paras[..i], cpl)
    {
      assert paras[..i + 1][..i] == paras[..i];
      var para := WrapSmart(paras[i], cpl);
      lines := lines + para;
    }
    assert paras[..|paras|] == paras;
  }

  /** clamp: v limited to [lo, hi], lo winning when the bounds cross. */
  function Clamp(v: real, lo: real, hi: real): (r: real)
    ensures r >= lo
    ensures lo <= hi ==> r <= hi
    ensures lo <= v <= hi ==> r == v
    ensures hi < lo ==> r == lo
  {
    MaxReal(lo, MinReal(hi, v))
  }

  /** 2 to the power n, as a real. */
  function Pow2(n: nat): (p: real)
    ensures p >= 1.0
  {
    if n == 0 then 1.0 else 2.0 * Pow2(n - 1)
  }

  /** A width halved n times. */
  function Halved(w: real, n: nat): real
  {
    if n == 0 then w else Halved(w, n - 1) * 0.5
  }

  /** A width halved n times is the width divided by 2^n. */
  lemma {:induction false} HalvedIsDivision(w: real, n: nat)
    ensures Halved(w, n) == w / Pow2(n)
  {
    if n > 0 {
      HalvedIsDivision(w, n - 1);
      var p := Pow2(n - 1);
      assert (w / p) * 0.5 * (2.0 * p) == w;
    }
  }

  /** Math.abs on a double. */
  function AbsReal(x: real): real { if x >= 0.0 then x else -x }

  /**
   * The bracket [lo, hi] after iter rounds that have not stopped: inside
   * [lo0, hi0], of the width w halved iter times, and no round so far left
   * it below 0.25.
   */
  ghost predicate Narrowing(w: real, lo0: real, hi0: real, lo: real, hi: real, iter: nat)
  {
    && lo0 <= lo <= hi <= hi0
    && hi - lo == Halved(w, iter)
    && (iter >= 1 ==> Halved(w, iter) >= 0.25)
  }

  /**
   * The bisection has stopped on a bracket [lo, hi] of the width w halved
   * rounds times: early only once that is below 0.25, and not before the
   * first round that made it so.
   */
  ghost predicate Stopped(w: real, lo: real, hi: real, rounds: nat)
  {
    && hi - lo == Halved(w, rounds)
    && (rounds < MAX_ITERATIONS ==> hi - lo < 0.25)
    && (rounds > 1 ==> Halved(w, rounds - 1) >= 0.25)
  }

  /**
   * One round keeps either half of the bracket: the result stays inside
   * [lo0, hi0], and it has either stopped (narrower than 0.25) or goes on
   * narrowing.
   */
  lemma NarrowStep(w: real, lo0: real, hi0: real, lo: real, hi: real, iter: nat, lo': real, hi': real)
    requires Narrowing(w, lo0, hi0, lo, hi, iter)
    requires (lo' == lo && hi' == (lo + hi) * 0.5) || (lo' == (lo + hi) * 0.5 && hi' == hi)
    ensures lo0 <= lo' <= hi' <= hi0
    ensures AbsReal(hi' - lo') < 0.25 ==> Stopped(w, lo', hi', iter + 1)
    ensures AbsReal(hi' - lo') >= 0.25 ==> Narrowing(w, lo0, hi0, lo', hi', iter + 1)
  {
    assert hi' - lo' == Halved(w, iter + 1);
  }

  /** After the last round without an early stop, the bisection has stopped. */
  lemma NarrowEnd(w: real, lo0: real, hi0: real, lo: real, hi: real)
    requires Narrowing(w, lo0, hi0, lo, hi, MAX_ITERATIONS)
    ensures Stopped(w, lo, hi, MAX_ITERATIONS)
  {
    assert Halved(w, MAX_ITERATIONS) == Halved(w, MAX_ITERATIONS - 1) * 0.5;
  }

  /**
   * fitFontSize: the bisection below with fits as its test. With ordered
   * bounds the result r and the final upper end top enclose the answer: r is
   * minPt or a size for which the text fits, top is maxPt or a size for which
   * it does not, and the bracket between them is (maxPt - minPt) halved rounds
   * times, the first such bracket below 0.25 or the one after 18 rounds.
   * Crossed bounds give minPt. The first size tested is the midpoint of the
   * bounds; when it does not fit, no larger size is tested again.
   */
  method FitFontSize(text: string, boxW: real, boxH: real, maxPt: real, minPt: real)
    returns (r: real, ghost top: real, ghost rounds: nat)
    ensures 1 <= rounds <= MAX_ITERATIONS
    ensures r == minPt || Fits(text, boxW, boxH, r)
    ensures top == maxPt || !Fits(text, boxW, boxH, top)
    ensures minPt <= maxPt ==> minPt <= r <= top <= maxPt && Stopped(maxPt - minPt, r, top, rounds)
    ensures maxPt < minPt ==> r == minPt
    ensures minPt <= maxPt && !Fits(text, boxW, boxH, (minPt + maxPt) * 0.5) ==> top <= (minPt + maxPt) * 0.5
  {
    var fits := pt => Fits(text, boxW, boxH, pt);
    r, top, rounds := Bisect(fits, maxPt, minPt);
    assert forall pt :: fits(pt) == Fits(text, boxW, boxH, pt);
  }

  /**
   * The loop of fitFontSize for any test of a size: lo from minPt and hi from
   * maxPt, at most 18 rounds, each testing the midpoint and keeping the half
   * whose ends still pass and fail the test, an early stop once the bracket is
   * narrower than 0.25, then the best size clamped to [minPt, maxPt].
   */
  method Bisect(fits: real -> bool, maxPt: real, minPt: real)
    returns (r: real, ghost top: real, ghost rounds: nat)
    ensures 1 <= rounds <= MAX_ITERATIONS
    ensures r == minPt || fits(r)
    ensures top == maxPt || !fits(top)
    ensures minPt <= maxPt ==> minPt <= r <= top <= maxPt && Stopped(maxPt - minPt, r, top, rounds)
    ensures maxPt < minPt ==> r == minPt
    ensures minPt <= maxPt && !fits((minPt + maxPt) * 0.5) ==> top <= (minPt + maxPt) * 0.5
  {
    var lo, hi, best := minPt, maxPt, minPt;
    var iter := 0;
    ghost var early := false;
    while iter < MAX_ITERATIONS
      invariant 0 <= iter <= MAX_ITERATIONS
      invariant best == lo
      invariant lo == minPt || fits(lo)
      invariant hi == maxPt || !fits(hi)
      invariant minPt <= maxPt ==> Narrowing(maxPt - minPt, minPt, maxPt, lo, hi, iter)
      invariant iter >= 1 && minPt <= maxPt && !fits((minPt + maxPt) * 0.5) ==> hi <= (minPt + maxPt) * 0.5
      decreases MAX_ITERATIONS - iter
    {
      var mid := (lo + hi) * 0.5;
      ghost var lo0, hi0 := lo, hi;
      if fits(mid) {
        best := mid;
        lo := mid;
      } else {
        hi := mid;
      }
      if minPt <= maxPt {
        NarrowStep(maxPt - minPt, minPt, maxPt, lo0, hi0, iter, lo, hi);
      }
      iter := iter + 1;
      if AbsReal(hi - lo) < 0.25 {
        early := true;
        break;
      }
    }
    if minPt <= maxPt && !early {
      NarrowEnd(maxPt - minPt, minPt, maxPt, lo, hi);
    }
    r, top, rounds := Clamp(best, minPt, maxPt), hi, iter;
  }

  // ---------------------------------------------------------------------
  // fits is not monotone in the point size
  // ---------------------------------------------------------------------

  /** The one-paragraph text of the example below: the words "aa", "bbbbbbbbbb" and "ccccc". */
  const EXAMPLE: string := "aa" + " " + Run('b', 10) + " " + Run('c', 5)

  /** The example spelled out. */
  lemma ExampleText()
    ensures EXAMPLE == "aa bbbbbbbbbb ccccc"
  {}

  /** The example text is one paragraph. */
  lemma ExampleParagraph()
    ensures SplitOnChar(EXAMPLE, '\n') == [EXAMPLE]
  {
    var t := EXAMPLE;
    assert IndexOf(t, '\n') < 0 by {
      assert forall i :: 0 <= i < |t| ==> t[i] == ' ' || t[i] == 'a' || t[i] == 'b' || t[i] == 'c';
    }
  }

  /** At 25 pt the line holds 13 characters; at 26 pt it holds 12. */
  lemma ExampleWidths()
    ensures CharsPerLine(179.0, 25.0) == 13
    ensures CharsPerLine(179.0, 26.0) == 12
  {
    assert Glyph(25.0) == 13.0;
    assert 169.0 / 13.0 == 13.0;
    assert Glyph(26.0) == 13.52;
    assert 169.0 / 13.52 == 12.5;
  }

  /** A one-paragraph text that trim() leaves alone is laid out as its words packed, flushed and de-orphaned. */
  lemma LaidOutOne(text: string, boxW: real, pt: real)
    requires SplitOnChar(text, '\n') == [text]
    requires !IsBlank(text) && Trim(text) == text
    ensures var cpl := CharsPerLine(boxW, pt);
      LaidOut(text, boxW, pt) == FixOrphan(Flush(Pack(SplitWords(text), cpl)), cpl)
  {
    var cpl := CharsPerLine(boxW, pt);
    assert [text][..0] == [];
    assert WrapParagraphs([text], cpl) == [] + Wrap(text, cpl);
    assert [] + Wrap(text, cpl) == Wrap(text, cpl);
  }

  /**
   * A one-paragraph text of three words, the first two sharing a line and
   * the third an orphan below them: the second word moves down to the third.
   */
  lemma LayoutJoined(text: string, boxW: real, pt: real, a: string, b: string, c: string)
    requires SplitOnChar(text, '\n') == [text] && !IsBlank(text) && Trim(text) == text
    requires SplitWords(text) == [a, b, c]
    requires var cpl := CharsPerLine(boxW, pt);
      && 0 < |a| && |a| + 1 + |b| <= cpl && 0 < |c| <= cpl && |a| + 1 + |b| + 1 + |c| > cpl
      && ' ' !in b && IsOrphan(|c|, cpl)
    ensures LaidOut(text, boxW, pt) == [a, b + " " + c]
  {
    LaidOutOne(text, boxW, pt);
    LinesJoined(a, b, c, CharsPerLine(boxW, pt));
  }

  /**
   * A one-paragraph text of three words, each on a line of its own, the
   * middle one without a space: the anti-orphan pass moves nothing.
   */
  lemma LayoutApart(text: string, boxW: real, pt: real, a: string, b: string, c: string)
    requires SplitOnChar(text, '\n') == [text] && !IsBlank(text) && Trim(text) == text
    requires SplitWords(text) == [a, b, c]
    requires var cpl := CharsPerLine(boxW, pt);
      && 0 < |a| <= cpl && 0 < |b| <= cpl && 0 < |c| <= cpl
      && |a| + 1 + |b| > cpl && |b| + 1 + |c| > cpl && ' ' !in b
    ensures LaidOut(text, boxW, pt) == [a, b, c]
  {
    LaidOutOne(text, boxW, pt);
    LinesApart(a, b, c, CharsPerLine(boxW, pt));
  }

  /** The longest of three lines. */
  lemma MaxLenThree(a: string, b: string, c: string)
    ensures MaxLen([a, b, c]) == Max(Max(|a|, |b|), |c|)
  {
    var lines := [a, b, c];
    assert lines[..2] == [a, b] && [a, b][..1] == [a] && [a][..0] == [];
  }

  /** The longest of two lines. */
  lemma MaxLenTwo(a: string, b: string)
    ensures MaxLen([a, b]) == Max(|a|, |b|)
  {
    assert [a, b][..1] == [a] && [a][..0] == [];
  }

  /**
   * fits is not monotone in the point size: the example text fails at 25 pt
   * and fits at 26 pt in a box 179 wide and 500 high. At 25 pt a line holds
   * 13 characters, the greedy lines are "aa bbbbbbbbbb" and the orphan
   * "ccccc", and the anti-orphan pass turns the second line into
   * "bbbbbbbbbb ccccc", 16 characters long. At 26 pt a line holds 12, the
   * three words are three lines that nothing moves, 402.48 high.
   */
  lemma FitsNotMonotone()
    ensures EXAMPLE == "aa bbbbbbbbbb ccccc"
    ensures !Fits(EXAMPLE, 179.0, 500.0, 25.0) && Fits(EXAMPLE, 179.0, 500.0, 26.0)
  {
    ExampleText();
    var a, b, c := "aa", Run('b', 10), Run('c', 5);
    ExampleParagraph();
    ThreeWords(a, b, c);
    ExampleWidths();
    LayoutJoined(EXAMPLE, 179.0, 25.0, a, b, c);
    MaxLenTwo(a, b + " " + c);
    LayoutApart(EXAMPLE, 179.0, 26.0, a, b, c);
    MaxLenThree(a, b, c);
    assert TotalHeight(3, 26.0) == 402.48;
  }

  // ---------------------------------------------------------------------
  // A search that does not rely on monotonicity (see Findings in README)
  // ---------------------------------------------------------------------

  /** The size k steps of 0.25 below maxPt. */
  function GridPoint(maxPt: real, k: nat): real
  {
    maxPt - 0.25 * (k as real)
  }

  /**
   * The largest size that fits, on the grid of sizes 0.25 apart from maxPt
   * down to minPt: the result fits, or is minPt when no size on the grid
   * does, and no larger size on the grid fits. This holds whether or not
   * fits is monotone.
   */
  method ScanFontSize(text: string, boxW: real, boxH: real, maxPt: real, minPt: real)
    returns (r: real, ghost steps: nat)
    ensures minPt <= r
    ensures r == minPt || (r == GridPoint(maxPt, steps) && r <= maxPt && Fits(text, boxW, boxH, r))
    ensures forall k: nat :: r < GridPoint(maxPt, k) && minPt <= GridPoint(maxPt, k) ==>
      !Fits(text, boxW, boxH, GridPoint(maxPt, k))
  {
    var fits := pt => Fits(text, boxW, boxH, pt);
    r, steps := ScanDown(fits, maxPt, minPt);
    assert forall pt :: fits(pt) == Fits(text, boxW, boxH, pt);
  }

  /** The downward scan for any test of a size: maxPt, maxPt - 0.25, ... while at least minPt. */
  method ScanDown(fits: real -> bool, maxPt: real, minPt: real) returns (r: real, ghost steps: nat)
    ensures minPt <= r
    ensures r == minPt || (r == GridPoint(maxPt, steps) && r <= maxPt && fits(r))
    ensures forall k: nat :: r < GridPoint(maxPt, k) && minPt <= GridPoint(maxPt, k) ==> !fits(GridPoint(maxPt, k))
  {
    var n := ((maxPt - minPt) * 4.0).Floor;
    var k := 0;
    while k <= n
      invariant 0 <= k
      invariant forall j: nat :: j < k ==> !fits(GridPoint(maxPt, j))
      decreases n + 1 - k
    {
      var pt := GridPoint(maxPt, k);
      if fits(pt) {
        assert (k as real) <= (maxPt - minPt) * 4.0;
        return pt, k;
      }
      k := k + 1;
    }
    r, steps := minPt, 0;
    forall j: nat | minPt <= GridPoint(maxPt, j)
      ensures j < k
    {
      assert (j as real) <= (maxPt - minPt) * 4.0;
    }
  }

  /**
   * fitFontSize settles below a size that fits: between 24 and 26 pt its
   * first test, at 25 pt, fails for the example, so the result is at most
   * 25 pt, although the text fits at 26 pt.
   */
  method SettlesBelowAFit() returns (r: real)
    ensures r <= 25.0 && Fits(EXAMPLE, 179.0, 500.0, 26.0)
  {
    ghost var top: real, rounds: nat;
    FitsNotMonotone();
    assert (24.0 + 26.0) * 0.5 == 25.0;
    r, top, rounds := FitFontSize(EXAMPLE, 179.0, 500.0, 26.0, 24.0);
  }
}
