/**
 * The file-name helpers of PresentationCreator: sanitizeName (the folder
 * name used for the output), detectPictureType and the listImages filter
 * (by lowercase extension), naturalKeyString (the sort key that puts img2
 * before img10) and the round-robin choice of a fallback image per slide.
 *
 * Files are given by their names; which of them exist and are regular files
 * is not modelled.
 */
module ImageFiles {
  import opened Wrappers
  import opened JavaText

  // ---------------------------------------------------------------------
  // sanitizeName: raw.replaceAll("[^\\p{IsAlphabetic}\\p{IsDigit}._-]+", "")
  // ---------------------------------------------------------------------

  /**
   * Character.isAlphabetic, for the Latin letters of ASCII and Latin-1 and
   * the Cyrillic letters of U+0400..U+052F.
   */
  predicate IsAlphabetic(c: char)
  {
    || ('a' <= c <= 'z') || ('A' <= c <= 'Z')
    || c == '\U{AA}' || c == '\U{B5}' || c == '\U{BA}'
    || ('\U{C0}' <= c <= '\U{FF}' && c != '\U{D7}' && c != '\U{F7}')
    || ('\U{400}' <= c <= '\U{481}') || ('\U{48A}' <= c <= '\U{52F}')
  }

  /** The characters sanitizeName keeps: letters, digits, '.', '_' and '-'. */
  predicate IsNameChar(c: char)
  {
    IsAlphabetic(c) || IsAsciiDigit(c) || c == '.' || c == '_' || c == '-'
  }

  /** Every character of s is one sanitizeName keeps. */
  predicate CleanName(s: string)
  {
    forall i :: 0 <= i < |s| ==> IsNameChar(s[i])
  }

  /** s with every run of other characters removed, that is with every other character removed. */
  function KeepNameChars(s: string): (r: string)
    ensures |r| <= |s|
    ensures CleanName(r)
  {
    if s == [] then []
    else
      var init := KeepNameChars(s[..|s| - 1]);
      if IsNameChar(s[|s| - 1]) then init + [s[|s| - 1]] else init
  }

  /** sanitizeName. */
  function SanitizeName(raw: string): (r: string)
  {
    var s := KeepNameChars(raw);
    if s == "." || s == ".." then "" else s
  }

  /** The characters left are exactly the name characters of the input. */
  lemma {:induction false} KeepNameCharsMembers(s: string)
    ensures forall c :: c in KeepNameChars(s) <==> c in s && IsNameChar(c)
  {
    if s != [] {
      var init := s[..|s| - 1];
      KeepNameCharsMembers(init);
      assert s == init + [s[|s| - 1]];
    }
  }

  /** A name made only of name characters is kept as it is. */
  lemma {:induction false} KeepNameCharsClean(s: string)
    requires CleanName(s)
    ensures KeepNameChars(s) == s
  {
    if s != [] {
      KeepNameCharsClean(s[..|s| - 1]);
    }
  }

  /**
   * The result holds only letters, digits, '.', '_' and '-', every such
   * character of the input survives unless the result would be "." or "..",
   * and it is never "." or "..".
   */
  lemma SanitizeNameShape(raw: string)
    ensures CleanName(SanitizeName(raw))
    ensures SanitizeName(raw) != "." && SanitizeName(raw) != ".."
    ensures SanitizeName(raw) != [] ==> forall c :: c in raw && IsNameChar(c) ==> c in SanitizeName(raw)
  {
    KeepNameCharsMembers(raw);
  }

  /** Sanitising a sanitised name changes nothing. */
  lemma SanitizeNameIdempotent(raw: string)
    ensures SanitizeName(SanitizeName(raw)) == SanitizeName(raw)
  {
    var s := SanitizeName(raw);
    KeepNameCharsClean(s);
  }

  // ---------------------------------------------------------------------
  // detectPictureType and the listImages filter
  // ---------------------------------------------------------------------

  datatype PictureType = PNG | JPEG | GIF

  /** detectPictureType, on the file name. */
  function DetectPictureType(name: string): PictureType
  {
    TypeOfLowerName(ToLower(name))
  }

  /** detectPictureType's tests on the lower-cased name, in their order. */
  function TypeOfLowerName(n: string): PictureType
  {
    if EndsWith(n, ".png") then PNG
    else if EndsWith(n, ".jpg") || EndsWith(n, ".jpeg") then JPEG
    else if EndsWith(n, ".gif") then GIF
    else PNG
  }

  /** The listImages filter: the lower-cased name ends in .jpg, .jpeg, .png or .gif. */
  predicate IsImageName(name: string)
  {
    HasImageExtension(ToLower(name))
  }

  /** The filter's test on the lower-cased name. */
  predicate HasImageExtension(n: string)
  {
    EndsWith(n, ".jpg") || EndsWith(n, ".jpeg") || EndsWith(n, ".png") || EndsWith(n, ".gif")
  }

  /**
   * The type follows the extension: GIF exactly for .gif, JPEG exactly for
   * .jpg and .jpeg, and PNG for .png and for every name the filter refuses.
   */
  lemma PictureTypeOfExtension(name: string)
    ensures var n := ToLower(name);
      && (DetectPictureType(name) == GIF <==> EndsWith(n, ".gif"))
      && (DetectPictureType(name) == JPEG <==> EndsWith(n, ".jpg") || EndsWith(n, ".jpeg"))
      && (!IsImageName(name) ==> DetectPictureType(name) == PNG)
  {
    TypeOfExtension(ToLower(name));
  }

  /** The same, for a name already in lower case: the extensions end in different letters or are tested first. */
  lemma TypeOfExtension(n: string)
    ensures TypeOfLowerName(n) == GIF <==> EndsWith(n, ".gif")
    ensures TypeOfLowerName(n) == JPEG <==> EndsWith(n, ".jpg") || EndsWith(n, ".jpeg")
    ensures !HasImageExtension(n) ==> TypeOfLowerName(n) == PNG
  {
    if EndsWith(n, ".png") { EndsWithAt(n, ".png", 0); EndsWithAt(n, ".png", 1); }
    if EndsWith(n, ".jpg") { EndsWithAt(n, ".jpg", 0); EndsWithAt(n, ".jpg", 1); }
    if EndsWith(n, ".jpeg") { EndsWithAt(n, ".jpeg", 0); EndsWithAt(n, ".jpeg", 1); }
    if EndsWith(n, ".gif") { EndsWithAt(n, ".gif", 0); }
  }

  /** The names the filter lets through, in their listing order. */
  function ImageNames(names: seq<string>): seq<string>
  {
    if names == [] then []
    else
      var init := ImageNames(names[..|names| - 1]);
      if IsImageName(names[|names| - 1]) then init + [names[|names| - 1]] else init
  }

  /** The filter keeps exactly the image names. */
  lemma {:induction false} ImageNamesMembers(names: seq<string>)
    ensures forall x :: x in ImageNames(names) <==> x in names && IsImageName(x)
    ensures |ImageNames(names)| <= |names|
  {
    if names != [] {
      var init := names[..|names| - 1];
      ImageNamesMembers(init);
      assert names == init + [names[|names| - 1]];
    }
  }

  // ---------------------------------------------------------------------
  // naturalKeyString
  // ---------------------------------------------------------------------

  /** Length of the \d+ or \D+ run at the start of a non-empty s. */
  function RunLength(s: string): (n: nat)
    requires s != []
    ensures 0 < n <= |s|
  {
    if IsAsciiDigit(s[0]) then LeadingCount(s, IsAsciiDigit) else CountUntil(s, IsAsciiDigit)
  }

  /** The matches of \d+|\D+, left to right: the maximal runs of digits and of other characters. */
  function Runs(s: string): seq<string>
    decreases |s|
  {
    if s == [] then [] else [s[..RunLength(s)]] + Runs(s[RunLength(s)..])
  }

  /** The strings one after the other. */
  function Concat(xs: seq<string>): string
  {
    if xs == [] then [] else xs[0] + Concat(xs[1..])
  }

  /** All characters are digits, or none is. */
  predicate Uniform(run: string)
  {
    AllDigits(run) || (forall i :: 0 <= i < |run| ==> !IsAsciiDigit(run[i]))
  }

  predicate AllDigits(s: string)
  {
    forall i :: 0 <= i < |s| ==> IsAsciiDigit(s[i])
  }

  /** The runs cover the string: put together again they give it back. */
  lemma {:induction false} RunsConcat(s: string)
    ensures Concat(Runs(s)) == s
    decreases |s|
  {
    if s != [] {
      var n := RunLength(s);
      RunsConcat(s[n..]);
      assert s == s[..n] + s[n..];
    }
  }

  /** Every run is non-empty and uniform, and runs of digits and runs of other characters alternate. */
  lemma {:induction false} RunsShape(s: string)
    ensures forall k :: 0 <= k < |Runs(s)| ==> Runs(s)[k] != [] && Uniform(Runs(s)[k])
    ensures forall k :: 0 <= k < |Runs(s)| - 1 ==> IsAsciiDigit(Runs(s)[k][0]) != IsAsciiDigit(Runs(s)[k + 1][0])
    decreases |s|
  {
    if s != [] {
      var n := RunLength(s);
      var rest := s[n..];
      RunsShape(rest);
      var r := Runs(s);
      assert r[1..] == Runs(rest);
      if n < |s| {
        assert rest[0] == s[n];
        assert r[1][0] == rest[0];
      }
      assert Uniform(r[0]);
    }
  }

  /** String.format("%0" + width + "d"): zeros in front of d up to width characters. */
  function PadZeros(d: string, width: nat): (r: string)
    ensures |r| == if |d| >= width then |d| else width
  {
    if |d| >= width then d else seq(width - |d|, _ => '0') + d
  }

  /** The key of a digit run: its value, in decimal, zero-padded to 20 digits. */
  function NumberKey(run: string): string
    requires AllDigits(run)
  {
    PadZeros(NatToDecimal(DecimalValue(run)), 20)
  }

  /** What stands in the key for a run: the number key for a run of digits, the run itself otherwise. */
  function Piece(run: string): string
  {
    if run != [] && AllDigits(run) then NumberKey(run) else run
  }

  /** The key of an already lower-cased name, run by run. */
  function KeyOf(s: string): string
    decreases |s|
  {
    if s == [] then [] else Piece(s[..RunLength(s)]) + KeyOf(s[RunLength(s)..])
  }

  /** naturalKeyString, on the file name. */
  function NaturalKey(name: string): string
  {
    KeyOf(ToLower(name))
  }

  /** The key is the pieces of the runs, one after the other. */
  lemma {:induction false} KeyOfRuns(s: string)
    ensures KeyOf(s) == Concat(PiecesOf(Runs(s)))
    decreases |s|
  {
    if s != [] {
      KeyOfRuns(s[RunLength(s)..]);
    }
  }

  /** Piece of every run, in order. */
  function PiecesOf(runs: seq<string>): seq<string>
  {
    if runs == [] then [] else [Piece(runs[0])] + PiecesOf(runs[1..])
  }

  /** The value of zeros followed by d is the value of d. */
  lemma {:induction false} LeadingZerosValue(z: nat, d: string)
    requires AllDigits(d)
    ensures AllDigits(seq(z, _ => '0') + d)
    ensures DecimalValue(seq(z, _ => '0') + d) == DecimalValue(d)
    decreases |d|
  {
    var zs: string := seq(z, _ => '0');
    var s := zs + d;
    assert AllDigits(s) by {
      forall i | 0 <= i < |s| ensures IsAsciiDigit(s[i]) {
        if i >= z { assert s[i] == d[i - z]; }
      }
    }
    if d != [] {
      var init := d[..|d| - 1];
      LeadingZerosValue(z, init);
      TakeAppend(zs, d, |d| - 1);
      assert s[|s| - 1] == d[|d| - 1];
    } else {
      AppendNil(zs);
      ZerosValue(z);
    }
  }

  /** A string of zeros has value zero. */
  lemma {:induction false} ZerosValue(z: nat)
    ensures AllDigits(seq(z, _ => '0'))
    ensures DecimalValue(seq(z, _ => '0')) == 0
  {
    var zs: string := seq(z, _ => '0');
    if z > 0 {
      ZerosValue(z - 1);
      assert zs[..z - 1] == seq(z - 1, _ => '0');
    }
  }

  /** A number key is all digits, at least 20 of them, and has the run's value. */
  lemma NumberKeyValue(run: string)
    requires AllDigits(run)
    ensures AllDigits(NumberKey(run)) && |NumberKey(run)| >= 20
    ensures DecimalValue(NumberKey(run)) == DecimalValue(run)
  {
    var d := NatToDecimal(DecimalValue(run));
    if |d| < 20 {
      LeadingZerosValue(20 - |d|, d);
    }
  }

  /** 10 to the power n. */
  function Pow10(n: nat): (r: nat)
    ensures r >= 1
  {
    if n == 0 then 1 else 10 * Pow10(n - 1)
  }

  /** The value of a digit. */
  function DigitValue(c: char): nat
    requires IsAsciiDigit(c)
  {
    c as int - '0' as int
  }

  /** Reading a digit string from the front: its first digit weighs 10^(n-1), and n digits stay below 10^n. */
  lemma {:induction false} FrontValue(s: string)
    requires AllDigits(s) && s != []
    ensures DecimalValue(s) == DigitValue(s[0]) * Pow10(|s| - 1) + DecimalValue(s[1..])
    ensures DecimalValue(s) < Pow10(|s|)
  {
    if |s| == 1 {
      assert s[1..] == [];
      assert s[..0] == [];
    } else {
      var init, tail := s[..|s| - 1], s[1..];
      FrontValue(init);
      assert init[0] == s[0];
      assert init[1..] == tail[..|tail| - 1];
      assert tail[|tail| - 1] == s[|s| - 1];
      var last := DigitValue(s[|s| - 1]);
      assert DecimalValue(s) == 10 * DecimalValue(init) + last;
      assert DecimalValue(tail) == 10 * DecimalValue(init[1..]) + last;
      ShiftDigit(DigitValue(s[0]), Pow10(|s| - 2), DecimalValue(init[1..]), last);
    }
  }

  /** Appending a digit to a number with a weighted leading digit. */
  lemma ShiftDigit(a: nat, p: nat, x: nat, d: nat)
    ensures 10 * (a * p + x) + d == a * (10 * p) + (10 * x + d)
  {
  }

  /** A decimal rendering below 10^w has at most w digits. */
  lemma ShortDecimal(v: nat, w: nat)
    requires 1 <= w && v < Pow10(w)
    ensures |NatToDecimal(v)| <= w
  {
    LongDecimal(NatToDecimal(v), w);
  }

  /** More than w digits, without a leading zero, make a value of at least 10^w. */
  lemma LongDecimal(d: string, w: nat)
    requires AllDigits(d) && (|d| > 1 ==> d[0] != '0')
    ensures |d| > w >= 1 ==> DecimalValue(d) >= Pow10(w)
  {
    if |d| > w >= 1 {
      FrontValue(d);
      var p := Pow10(|d| - 1);
      Weighted(0, DigitValue(d[0]), p, 0, DecimalValue(d[1..]));
      PowMonotone(w, |d| - 1);
    }
  }

  /** With weights p, a larger leading digit outweighs any tail below p. */
  lemma {:induction false} Weighted(dx: nat, dy: nat, p: nat, tx: nat, ty: nat)
    requires dx < dy && tx < p
    ensures dx * p + tx < dy * p + ty
    ensures dx * p + p <= dy * p
    decreases dy - dx
  {
    if dy == dx + 1 {
      assert dy * p == dx * p + p;
    } else {
      Weighted(dx, dy - 1, p, tx, ty);
      assert dy * p == (dy - 1) * p + p;
    }
  }

  lemma {:induction false} PowMonotone(m: nat, n: nat)
    requires m <= n
    ensures Pow10(m) <= Pow10(n)
    decreases n
  {
    if m < n {
      PowMonotone(m, n - 1);
    }
  }

  // ---------------------------------------------------------------------
  // String.compareTo
  // ---------------------------------------------------------------------

  /** a.compareTo(b) <= 0: lexicographic order of the characters, a proper prefix first. */
  predicate StrLe(a: string, b: string)
    decreases |a|
  {
    a == [] || (b != [] && (a[0] < b[0] || (a[0] == b[0] && StrLe(a[1..], b[1..]))))
  }

  /** a.compareTo(b) < 0. */
  predicate StrLess(a: string, b: string)
  {
    StrLe(a, b) && a != b
  }

  /** Any two strings compare one way or the other. */
  lemma {:induction false} StrLeTotal(a: string, b: string)
    ensures StrLe(a, b) || StrLe(b, a)
    decreases |a|
  {
    if a != [] && b != [] && a[0] == b[0] {
      StrLeTotal(a[1..], b[1..]);
    }
  }

  /** Both ways round only for equal strings. */
  lemma {:induction false} StrLeAntisymmetric(a: string, b: string)
    requires StrLe(a, b) && StrLe(b, a)
    ensures a == b
    decreases |a|
  {
    if a != [] {
      StrLeAntisymmetric(a[1..], b[1..]);
      assert a == [a[0]] + a[1..] && b == [b[0]] + b[1..];
    }
  }

  /** A common prefix does not change the order. */
  lemma {:induction false} StrLeCommonPrefix(p: string, a: string, b: string)
    ensures StrLe(p + a, p + b) <==> StrLe(a, b)
    decreases |p|
  {
    if p != [] {
      StrLeCommonPrefix(p[1..], a, b);
      assert (p + a)[0] == p[0] && (p + b)[0] == p[0];
      assert (p + a)[1..] == p[1..] + a && (p + b)[1..] == p[1..] + b;
    } else {
      assert p + a == a && p + b == b;
    }
  }
  /** Between digit strings of one length, the character order is the order of the values. */
  lemma {:induction false} DigitOrder(x: string, y: string)
    requires AllDigits(x) && AllDigits(y) && |x| == |y|
    ensures StrLe(x, y) ==> DecimalValue(x) <= DecimalValue(y)
    decreases |x|
  {
    if x != [] && StrLe(x, y) {
      FrontValue(x);
      FrontValue(y);
      var p := Pow10(|x| - 1);
      if x[0] == y[0] {
        DigitOrder(x[1..], y[1..]);
      } else {
        LeadDigitWins(x, y);
      }
    }
  }

  /** A larger first digit makes the larger value, whatever follows. */
  lemma LeadDigitWins(x: string, y: string)
    requires AllDigits(x) && AllDigits(y) && |x| == |y| && x != [] && x[0] < y[0]
    ensures DecimalValue(x) < DecimalValue(y)
  {
    FrontValue(x);
    FrontValue(y);
    var tail := DecimalValue(x[1..]);
    assert tail < Pow10(|x| - 1) by {
      if |x| > 1 { FrontValue(x[1..]); } else { assert x[1..] == []; }
    }
    Weighted(DigitValue(x[0]), DigitValue(y[0]), Pow10(|x| - 1), tail, DecimalValue(y[1..]));
  }

  // ---------------------------------------------------------------------
  // The key of one run, and of the whole name
  // ---------------------------------------------------------------------

  predicate IsZero(c: char)
  {
    c == '0'
  }

  /**
   * part.replaceFirst("^0+(?!$)", ""): the leading zeros go, except that a
   * run of zeros only keeps its last one (the match may not reach the end).
   */
  function StripZeros(run: string): (r: string)
    ensures |r| <= |run| && r == run[|run| - |r|..]
    ensures run != [] ==> r != []
    ensures |r| > 1 ==> r[0] != '0'
  {
    var z := LeadingCount(run, IsZero);
    if z == |run| && z > 0 then run[z - 1..] else run[z..]
  }

  /** Dropping the zeros keeps the digits and their value. */
  lemma StripZerosValue(run: string)
    requires AllDigits(run)
    ensures AllDigits(StripZeros(run))
    ensures DecimalValue(StripZeros(run)) == DecimalValue(run)
  {
    var r := StripZeros(run);
    var k := |run| - |r|;
    assert AllDigits(r) by {
      forall i | 0 <= i < |r| ensures IsAsciiDigit(r[i]) {
        assert r[i] == run[k + i];
      }
    }
    var zs: string := seq(k, _ => '0');
    assert run == zs + r by {
      assert run == run[..k] + r;
      assert run[..k] == zs;
    }
    LeadingZerosValue(k, r);
  }

  /** The body of the matcher loop: the run at the start of rest, and what the key gets for it. */
  method NextPiece(rest: string) returns (n: nat, piece: string)
    requires rest != []
    ensures n == RunLength(rest) && piece == Piece(rest[..n])
  {
    n := RunLength(rest);
    var part := rest[..n];
    if IsAsciiDigit(part[0]) {
      assert AllDigits(part);
      var num := StripZeros(part);
      StripZerosValue(part);
      piece := PadZeros(NatToDecimal(DecimalValue(num)), 20);
    } else {
      assert !AllDigits(part);
      piece := part;
    }
  }

  /**
   * naturalKeyString: the matcher walks the runs of \d+ and \D+ of the
   * lower-cased name, appending a run of other characters as it is and a
   * run of digits as its value zero-padded to 20 digits.
   */
  method NaturalKeyString(name: string) returns (key: string)
    ensures key == NaturalKey(name)
  {
    key := KeyString(ToLower(name));
  }

  /** The matcher loop over the lower-cased name. */
  method KeyString(s: string) returns (key: string)
    ensures key == KeyOf(s)
  {
    var sb := "";
    var rest := s;
    while rest != []
      invariant sb + KeyOf(rest) == KeyOf(s)
      decreases |rest|
    {
      var n, piece := NextPiece(rest);
      AppendAssoc(sb, piece, KeyOf(rest[n..]));
      sb := sb + piece;
      rest := rest[n..];
    }
    AppendNil(sb);
    key := sb;
  }

  /**
   * Number keys of values below 10^20 are 20 digits long and compare as the
   * values do: one key comes first exactly when its value is smaller, and
   * two keys are equal exactly when their values are.
   */
  lemma NumberKeyOrder(a: string, b: string)
    requires AllDigits(a) && AllDigits(b)
    requires DecimalValue(a) < Pow10(20) && DecimalValue(b) < Pow10(20)
    ensures |NumberKey(a)| == 20 && |NumberKey(b)| == 20
    ensures StrLe(NumberKey(a), NumberKey(b)) <==> DecimalValue(a) <= DecimalValue(b)
    ensures NumberKey(a) == NumberKey(b) <==> DecimalValue(a) == DecimalValue(b)
  {
    var ka, kb := NumberKey(a), NumberKey(b);
    ShortDecimal(DecimalValue(a), 20);
    ShortDecimal(DecimalValue(b), 20);
    NumberKeyValue(a);
    NumberKeyValue(b);
    DigitOrder(ka, kb);
    DigitOrder(kb, ka);
    StrLeTotal(ka, kb);
  }

  /** Lower-casing leaves digits alone. */
  lemma LowerDigits(x: string)
    requires AllDigits(x)
    ensures ToLower(x) == x
  {
  }

  /**
   * The key of a name made of a stem without digits (already in lower case)
   * and a number is the stem followed by the number key.
   */
  lemma KeyOfNumbered(stem: string, x: string)
    requires stem != [] && x != [] && AllDigits(x)
    requires forall i :: 0 <= i < |stem| ==> !IsAsciiDigit(stem[i]) && ToLowerChar(stem[i]) == stem[i]
    ensures NaturalKey(stem + x) == stem + NumberKey(x)
  {
    var s := stem + x;
    assert ToLower(s) == s;
    var n := RunLength(s);
    assert n == |stem| by {
      assert s[|stem|] == x[0];
    }
    assert s[..n] == stem && s[n..] == x;
    assert !AllDigits(stem) by {
      assert !IsAsciiDigit(stem[0]);
    }
    var m := RunLength(x);
    assert m == |x|;
    assert x[..m] == x && x[m..] == [];
    assert KeyOf(x) == NumberKey(x) + KeyOf([]);
    assert KeyOf(s) == Piece(stem) + KeyOf(x);
  }
  /**
   * Names that differ only in their number sort by the number's value, not
   * by its characters: img2 comes before img10.
   */
  lemma NumberedNames(stem: string, x: string, y: string)
    requires stem != [] && x != [] && y != [] && AllDigits(x) && AllDigits(y)
    requires forall i :: 0 <= i < |stem| ==> !IsAsciiDigit(stem[i]) && ToLowerChar(stem[i]) == stem[i]
    requires DecimalValue(x) < Pow10(20) && DecimalValue(y) < Pow10(20)
    ensures StrLe(NaturalKey(stem + x), NaturalKey(stem + y)) <==> DecimalValue(x) <= DecimalValue(y)
    ensures StrLess(NaturalKey(stem + x), NaturalKey(stem + y)) <==> DecimalValue(x) < DecimalValue(y)
  {
    KeyOfNumbered(stem, x);
    KeyOfNumbered(stem, y);
    NumberKeyOrder(x, y);
    var a, b := NumberKey(x), NumberKey(y);
    StrLeCommonPrefix(stem, a, b);
    assert stem + a == stem + b ==> a == b by {
      if stem + a == stem + b {
        assert a == (stem + a)[|stem|..];
      }
    }
  }

  // ---------------------------------------------------------------------
  // listImages: filter, then sort by the natural key
  // ---------------------------------------------------------------------

  /** xs is ordered by key: every key is at most the next one. */
  ghost predicate SortedBy<T>(xs: seq<T>, key: T -> string)
  {
    forall i :: 0 < i < |xs| ==> StrLe(key(xs[i - 1]), key(xs[i]))
  }

  /** x put in front of the first element whose key is not smaller. */
  function InsertBy<T>(x: T, sorted: seq<T>, key: T -> string): (r: seq<T>)
    ensures |r| == |sorted| + 1
  {
    if sorted == [] || StrLe(key(x), key(sorted[0])) then [x] + sorted
    else [sorted[0]] + InsertBy(x, sorted[1..], key)
  }

  /** Stream.sorted with Comparator.comparing(key): a stable sort by key. */
  function SortBy<T>(xs: seq<T>, key: T -> string): (r: seq<T>)
    ensures |r| == |xs|
  {
    if xs == [] then [] else InsertBy(xs[0], SortBy(xs[1..], key), key)
  }

  /** Inserting into an ordered sequence keeps it ordered and adds exactly x. */
  lemma {:induction false} InsertBySorted<T>(x: T, sorted: seq<T>, key: T -> string)
    requires SortedBy(sorted, key)
    ensures SortedBy(InsertBy(x, sorted, key), key)
    ensures multiset(InsertBy(x, sorted, key)) == multiset(sorted) + multiset{x}
  {
    var r := InsertBy(x, sorted, key);
    if sorted == [] || StrLe(key(x), key(sorted[0])) {
      assert r == [x] + sorted;
    } else {
      var tail := sorted[1..];
      StrLeTotal(key(x), key(sorted[0]));
      InsertBySorted(x, tail, key);
      var rest := InsertBy(x, tail, key);
      assert r == [sorted[0]] + rest;
      assert sorted == [sorted[0]] + tail;
      assert StrLe(key(sorted[0]), key(rest[0])) by {
        if tail != [] && !StrLe(key(x), key(tail[0])) {
          assert rest[0] == tail[0];
          assert SortedBy(sorted, key) && sorted[1] == tail[0];
        } else {
          assert rest[0] == x;
        }
      }
      assert SortedBy(r, key) by {
        forall i | 0 < i < |r| ensures StrLe(key(r[i - 1]), key(r[i])) {
          if i > 1 {
            assert r[i - 1] == rest[i - 2] && r[i] == rest[i - 1];
          }
        }
      }
    }
  }

  /** The sort returns its input ordered by key: the same elements, as often, in key order. */
  lemma {:induction false} SortBySorted<T>(xs: seq<T>, key: T -> string)
    ensures SortedBy(SortBy(xs, key), key)
    ensures multiset(SortBy(xs, key)) == multiset(xs)
  {
    if xs != [] {
      SortBySorted(xs[1..], key);
      InsertBySorted(xs[0], SortBy(xs[1..], key), key);
      assert xs == [xs[0]] + xs[1..];
    }
  }

  /** listImages, on the names in the folder's listing order. */
  function ListImages(names: seq<string>): seq<string>
  {
    SortBy(ImageNames(names), NaturalKey)
  }

  /**
   * The listing holds every image name of the folder, as often as it
   * occurs, and nothing else, ordered by the natural key.
   */
  lemma ListImagesShape(names: seq<string>)
    ensures SortedBy(ListImages(names), NaturalKey)
    ensures multiset(ListImages(names)) == multiset(ImageNames(names))
    ensures forall x :: x in ListImages(names) <==> x in names && IsImageName(x)
  {
    SortBySorted(ImageNames(names), NaturalKey);
    ImageNamesMembers(names);
    forall x ensures x in ListImages(names) <==> x in ImageNames(names) {
      assert x in ListImages(names) <==> x in multiset(ListImages(names));
      assert x in ImageNames(names) <==> x in multiset(ImageNames(names));
    }
  }

  // ---------------------------------------------------------------------
  // The picture of slide i
  // ---------------------------------------------------------------------

  /**
   * The picture of slide i (from 0): the block's own image when it has one,
   * otherwise image i mod n of the (shuffled) folder images, and none when
   * there are none.
   */
  function SlideImage(explicit: Option<string>, images: seq<string>, i: nat): (r: Option<string>)
    ensures r.Some? <==> explicit.Some? || images != []
    ensures explicit.Some? ==> r == explicit
    ensures explicit.None? && r.Some? ==> r.value in images
  {
    if explicit.Some? then explicit
    else if images == [] then None
    else Some(images[i % |images|])
  }

  /**
   * Without explicit images the slides take the folder images in turn:
   * slide i gets image i while there are enough, and the choice repeats
   * every n slides.
   */
  lemma RoundRobin(images: seq<string>, i: nat)
    requires images != []
    ensures i < |images| ==> SlideImage(None, images, i) == Some(images[i])
    ensures SlideImage(None, images, i + |images|) == SlideImage(None, images, i)
  {
    ModPeriod(i, |images|);
    ModSmall(i, |images|);
  }

  lemma ModSmall(i: nat, n: nat)
    requires n > 0
    ensures i < n ==> i % n == i
  {
  }

  lemma ModPeriod(i: nat, n: nat)
    requires n > 0
    ensures (i + n) % n == i % n
  {
    var q, r := i / n, i % n;
    assert i + n == (q + 1) * n + r;
    ModUnique(i + n, n, q + 1, r);
  }

  /** The remainder is the only r in [0, n) with a == q * n + r. */
  lemma ModUnique(a: nat, n: nat, q: int, r: int)
    requires n > 0 && 0 <= r < n && a == q * n + r
    ensures a % n == r
  {
    var q2, r2 := a / n, a % n;
    var k := q - q2;
    assert k * n == r2 - r;
    MulSign(k, n);
  }

  /** A non-zero multiple of n is at least n away from zero. */
  lemma {:induction false} MulSign(k: int, n: int)
    requires n >= 0
    ensures k >= 1 ==> k * n >= n
    ensures k <= -1 ==> k * n <= -n
    decreases if k >= 0 then k else -k
  {
    if k > 1 {
      MulSign(k - 1, n);
      assert k * n == (k - 1) * n + n;
    } else if k < -1 {
      MulSign(k + 1, n);
      assert k * n == (k + 1) * n - n;
    }
  }

  /** When there are no more images than slides, every image is shown on some slide. */
  lemma EveryImageUsed(images: seq<string>, count: nat)
    requires |images| <= count
    ensures forall x :: x in images ==> exists i: nat :: i < count && SlideImage(None, images, i) == Some(x)
  {
    forall x | x in images
      ensures exists i: nat :: i < count && SlideImage(None, images, i) == Some(x)
    {
      var j :| 0 <= j < |images| && images[j] == x;
      RoundRobin(images, j);
      assert SlideImage(None, images, j) == Some(x);
    }
  }
}
