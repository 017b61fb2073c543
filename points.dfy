/** Story-point extraction from a card title (burndown.py:15-21, 63-69).

    Two patterns are tried in order, each searched for leftmost-first, and the
    first pattern that matches anywhere in the title decides the points:
      - the bracket pattern  [\(\[](?P<pts>\d+(\.\d+)?)[Pp]?[\)\]]
      - the inline pattern   weight:\s+(?P<pts>\d+(\.\d+)?)\b
    The captured `pts` group is read as an exact decimal; when neither pattern
    matches, the card is worth the default of one point.

    Each pattern is written here as a hand-made matcher that follows the
    backtracking order of Python's `re` engine, next to a declarative
    description of the strings the pattern accepts; the lemmas connect the two. */
module Points {
  import opened Common
  import opened Text

  /** DEFAULT_STORY_POINTS */
  const DefaultStoryPoints: real := 1.0

  /** The `pts` group, `\d+(\.\d+)?`: the whole digits and, when `frac` is not
      empty, the digits after the decimal point. */
  datatype Numeral = Numeral(whole: string, frac: string)

  predicate ValidNumeral(n: Numeral) {
    |n.whole| > 0 && All(n.whole, IsDigit) && All(n.frac, IsDigit)
  }

  /** The text of the group as it stands in the title. */
  function NumeralText(n: Numeral): string {
    if n.frac == [] then n.whole else n.whole + "." + n.frac
  }

  function DigitValue(c: char): (v: nat)
    requires IsDigit(c)
    ensures v < 10
  {
    c as int - '0' as int
  }

  /** The value of a string of decimal digits, most significant first. */
  function DigitsValue(ds: string): nat
    requires All(ds, IsDigit)
  {
    if ds == [] then 0 else 10 * DigitsValue(ds[..|ds| - 1]) + DigitValue(ds[|ds| - 1])
  }

  function Pow10(k: nat): (p: nat)
    ensures p >= 1
  {
    if k == 0 then 1 else 10 * Pow10(k - 1)
  }

  /** k digits are worth less than 10^k. */
  lemma {:induction false} DigitsBelowPow10(ds: string)
    requires All(ds, IsDigit)
    ensures DigitsValue(ds) < Pow10(|ds|)
  {
    if ds != [] {
      DigitsBelowPow10(ds[..|ds| - 1]);
    }
  }

  /** The fraction a / b of naturals with a < b lies in [0, 1). */
  lemma FractionBelowOne(a: nat, b: nat)
    requires a < b
    ensures 0.0 <= a as real / b as real < 1.0
  {
    assert a as real < b as real;
  }

  /** `Decimal(text)` of a numeral, exactly: the whole part plus a fraction
      that is less than one. */
  function NumeralValue(n: Numeral): (v: real)
    requires ValidNumeral(n)
    ensures DigitsValue(n.whole) as real <= v < DigitsValue(n.whole) as real + 1.0
    ensures n.frac == [] ==> v == DigitsValue(n.whole) as real
  {
    DigitsBelowPow10(n.frac);
    FractionBelowOne(DigitsValue(n.frac), Pow10(|n.frac|));
    DigitsValue(n.whole) as real + DigitsValue(n.frac) as real / Pow10(|n.frac|) as real
  }

  /** The end of the longest run of characters of class `p` that starts at `i`
      (greedy `\d+` or `\s+` never gives characters back here: what follows
      the run in each pattern can never be another character of the class). */
  function RunEnd(s: string, i: nat, p: char -> bool): (j: nat)
    requires i <= |s|
    ensures i <= j <= |s|
    ensures forall k :: i <= k < j ==> p(s[k])
    ensures j == |s| || !p(s[j])
    decreases |s| - i
  {
    if i < |s| && p(s[i]) then RunEnd(s, i + 1, p) else i
  }

  predicate IsOpen(c: char) { c == '(' || c == '[' }

  predicate IsClose(c: char) { c == ')' || c == ']' }

  /** `[Pp]?[\)\]]` matches at `k`. */
  predicate ClosesAt(s: string, k: nat) {
    || (k < |s| && IsClose(s[k]))
    || (k + 1 < |s| && (s[k] == 'P' || s[k] == 'p') && IsClose(s[k + 1]))
  }

  /** `\.\d` starts at `j`: the optional fraction can be entered. */
  predicate FractionAt(s: string, j: nat) {
    j + 1 < |s| && s[j] == '.' && IsDigit(s[j + 1])
  }

  /** `\b` at position `p`: a word character on exactly one side. After a
      word character (the last digit of a numeral) it holds exactly at the end
      of the text or before a character that is not a word character. */
  predicate WordBoundaryAt(s: string, p: nat)
    ensures WordBoundaryAt(s, p) ==> p <= |s|
    ensures 0 < p <= |s| && IsWordChar(s[p - 1]) ==>
              (WordBoundaryAt(s, p) <==> p == |s| || !IsWordChar(s[p]))
  {
    (0 < p <= |s| && IsWordChar(s[p - 1])) != (p < |s| && IsWordChar(s[p]))
  }

  // ---------------------------------------------------------------------------
  // The bracket pattern

  /** The bracket pattern matches at `i` and captures `n`, read declaratively:
      an open bracket, the numeral's text, an optional `P`/`p`, a close bracket. */
  predicate ParenMatches(s: string, i: nat, n: Numeral) {
    && ValidNumeral(n)
    && i < |s| && IsOpen(s[i])
    && OccursAt(NumeralText(n), s, i + 1)
    && ClosesAt(s, i + 1 + |NumeralText(n)|)
  }

  /** The bracket pattern tried at position `i` by the regex engine. */
  function ParenNumeralAt(s: string, i: nat): (r: Option<Numeral>)
    ensures r.Some? ==> ValidNumeral(r.value)
  {
    if i < |s| && IsOpen(s[i]) then
      var j := RunEnd(s, i + 1, IsDigit);
      if j == i + 1 then None
      else if FractionAt(s, j) then
        var k := RunEnd(s, j + 1, IsDigit);
        if ClosesAt(s, k) then Some(Numeral(s[i + 1..j], s[j + 1..k])) else None
      else if ClosesAt(s, j) then Some(Numeral(s[i + 1..j], []))
      else None
    else None
  }

  // ---------------------------------------------------------------------------
  // The inline pattern

  const WeightMarker: string := "weight:"

  /** The inline pattern matches at `i` with the whitespace ending at `w`,
      capturing `n`, read declaratively: `weight:`, at least one whitespace
      character, the numeral's text, then a word boundary. */
  predicate InlineMatches(s: string, i: nat, w: nat, n: Numeral) {
    && ValidNumeral(n)
    && OccursAt(WeightMarker, s, i)
    && i + |WeightMarker| < w <= |s|
    && (forall k :: i + |WeightMarker| <= k < w ==> IsSpace(s[k]))
    && OccursAt(NumeralText(n), s, w)
    && WordBoundaryAt(s, w + |NumeralText(n)|)
  }

  /** The inline pattern tried at position `i` by the regex engine. */
  function InlineNumeralAt(s: string, i: nat): (r: Option<Numeral>)
    ensures r.Some? ==> ValidNumeral(r.value)
  {
    if OccursAt(WeightMarker, s, i) && i + |WeightMarker| < |s| && IsSpace(s[i + |WeightMarker|]) then
      InlineNumeralFrom(s, RunEnd(s, i + |WeightMarker|, IsSpace))
    else None
  }

  /** `(?P<pts>\d+(\.\d+)?)\b` tried at `w`, just after the whitespace. The
      optional fraction is tried first; when no word boundary follows it, the
      engine drops the fraction and the boundary before the `.` succeeds. */
  function InlineNumeralFrom(s: string, w: nat): (r: Option<Numeral>)
    requires w <= |s|
    ensures r.Some? ==> ValidNumeral(r.value)
  {
    var j := RunEnd(s, w, IsDigit);
    if j == w then None
    else if FractionAt(s, j) && WordBoundaryAt(s, RunEnd(s, j + 1, IsDigit)) then
      Some(Numeral(s[w..j], s[j + 1..RunEnd(s, j + 1, IsDigit)]))
    else if WordBoundaryAt(s, j) then Some(Numeral(s[w..j], []))
    else None
  }

  // ---------------------------------------------------------------------------
  // Search and the ordered pattern list

  /** The patterns of PTS_RES. */
  datatype Pattern = ParenPattern | InlinePattern

  /** PTS_RES, in the order they are tried. */
  const PointPatterns: seq<Pattern> := [ParenPattern, InlinePattern]

  function NumeralAt(p: Pattern, s: string, i: nat): (r: Option<Numeral>)
    ensures r.Some? ==> ValidNumeral(r.value)
  {
    match p
    case ParenPattern => ParenNumeralAt(s, i)
    case InlinePattern => InlineNumeralAt(s, i)
  }

  /** A successful search: where the match starts and what `pts` captured. */
  datatype Match = Match(start: nat, pts: Numeral)

  /** `re.search` from position `i`: the leftmost position at which `p` matches. */
  function SearchFrom(p: Pattern, s: string, i: nat): (r: Option<Match>)
    requires i <= |s|
    ensures r.Some? ==> ValidNumeral(r.value.pts)
    decreases |s| - i
  {
    match NumeralAt(p, s, i)
    case Some(n) => Some(Match(i, n))
    case None => if i == |s| then None else SearchFrom(p, s, i + 1)
  }

  function Search(p: Pattern, s: string): (r: Option<Match>)
    ensures r.Some? ==> ValidNumeral(r.value.pts)
  {
    SearchFrom(p, s, 0)
  }

  /** The `for pts_re in PTS_RES` loop: the capture of the first pattern of
      `patterns` that matches somewhere in `s`. */
  function FirstMatch(patterns: seq<Pattern>, s: string): (r: Option<Numeral>)
    ensures r.None? <==> forall k :: 0 <= k < |patterns| ==> Search(patterns[k], s).None?
    ensures r.Some? ==> exists k :: 0 <= k < |patterns| && Search(patterns[k], s).Some?
                                  && r.value == Search(patterns[k], s).value.pts
                                  && forall l :: 0 <= l < k ==> Search(patterns[l], s).None?
  {
    if patterns == [] then None
    else match Search(patterns[0], s)
      case Some(m) => Some(m.pts)
      case None =>
        var rest := patterns[1..];
        var r := FirstMatch(rest, s);
        assert forall k :: 1 <= k < |patterns| ==> patterns[k] == rest[k - 1];
        assert r.Some? ==> exists k :: 1 <= k < |patterns| && Search(patterns[k], s).Some?
                                       && r.value == Search(patterns[k], s).value.pts
                                       && forall l :: 0 <= l < k ==> Search(patterns[l], s).None? by {
          if r.Some? {
            var k :| 0 <= k < |rest| && Search(rest[k], s).Some? && r.value == Search(rest[k], s).value.pts
                     && forall l :: 0 <= l < k ==> Search(rest[l], s).None?;
            assert patterns[k + 1] == rest[k];
            assert forall l :: 1 <= l < k + 1 ==> Search(patterns[l], s) == Search(rest[l - 1], s);
            assert forall l :: 0 <= l < k + 1 ==> Search(patterns[l], s).None?;
            assert Search(patterns[k + 1], s).Some? && r.value == Search(patterns[k + 1], s).value.pts;
          }
        }
        r
  }

  /** card_story_points on an already computed title. */
  function TitlePoints(title: string): (r: real)
    ensures r >= 0.0
  {
    match FirstMatch(PointPatterns, title)
    case Some(n) => NumeralValue(n)
    case None => DefaultStoryPoints
  }

  // ---------------------------------------------------------------------------
  // The matchers against the declarative patterns

  /** A maximal run is determined by where it stops. */
  lemma {:induction false} RunEndUnique(s: string, i: nat, j: nat, p: char -> bool)
    requires i <= j <= |s|
    requires forall k :: i <= k < j ==> p(s[k])
    requires j == |s| || !p(s[j])
    ensures RunEnd(s, i, p) == j
    decreases j - i
  {
    if i < j {
      RunEndUnique(s, i + 1, j, p);
    }
  }

  /** The parts of a numeral's text. */
  lemma NumeralTextParts(n: Numeral)
    ensures |NumeralText(n)| == |n.whole| + (if n.frac == [] then 0 else 1 + |n.frac|)
    ensures NumeralText(n)[..|n.whole|] == n.whole
    ensures n.frac != [] ==> NumeralText(n)[|n.whole|] == '.' && NumeralText(n)[|n.whole| + 1..] == n.frac
  {
  }

  /** Characters of an occurrence are the characters of the pattern. */
  lemma OccurrenceAt(t: string, s: string, a: nat, k: nat)
    requires OccursAt(t, s, a) && k < |t|
    ensures s[a + k] == t[k]
  {
    assert s[a..a + |t|][k] == s[a + k];
  }

  /** Whatever the bracket matcher captures is a match of the bracket pattern. */
  lemma ParenSound(s: string, i: nat)
    requires ParenNumeralAt(s, i).Some?
    ensures ParenMatches(s, i, ParenNumeralAt(s, i).value)
  {
    var n := ParenNumeralAt(s, i).value;
    var j := RunEnd(s, i + 1, IsDigit);
    if FractionAt(s, j) {
      var k := RunEnd(s, j + 1, IsDigit);
      assert NumeralText(n) == s[i + 1..k];
    } else {
      assert NumeralText(n) == s[i + 1..j];
    }
  }

  /** Every match of the bracket pattern is the one the matcher captures: at a
      given position the bracket pattern can match in only one way. */
  lemma ParenComplete(s: string, i: nat, n: Numeral)
    requires ParenMatches(s, i, n)
    ensures ParenNumeralAt(s, i) == Some(n)
  {
    var a := i + 1;
    var j := a + |n.whole|;
    NumeralPartsAt(s, a, n);
    NumeralTextParts(n);
    RunEndUnique(s, a, j, IsDigit);
    assert i < |s| && IsOpen(s[i]) && j != a;
    if n.frac == [] {
      assert !FractionAt(s, j) && ClosesAt(s, j);
      assert Numeral(s[a..j], []) == n;
    } else {
      var k := j + 1 + |n.frac|;
      RunEndUnique(s, j + 1, k, IsDigit);
      assert FractionAt(s, j) && ClosesAt(s, k);
      assert Numeral(s[a..j], s[j + 1..k]) == n;
    }
  }

  /** What the numeral part of the inline matcher captures stands at `w` and
      is followed by a word boundary. */
  lemma InlineFromSound(s: string, w: nat)
    requires w <= |s| && InlineNumeralFrom(s, w).Some?
    ensures OccursAt(NumeralText(InlineNumeralFrom(s, w).value), s, w)
    ensures WordBoundaryAt(s, w + |NumeralText(InlineNumeralFrom(s, w).value)|)
  {
    var n := InlineNumeralFrom(s, w).value;
    var j := RunEnd(s, w, IsDigit);
    if FractionAt(s, j) && WordBoundaryAt(s, RunEnd(s, j + 1, IsDigit)) {
      var k := RunEnd(s, j + 1, IsDigit);
      assert NumeralText(n) == s[w..k];
    } else {
      assert NumeralText(n) == s[w..j];
    }
  }

  /** Whatever the inline matcher captures is a match of the inline pattern. */
  lemma InlineSound(s: string, i: nat)
    requires InlineNumeralAt(s, i).Some?
    ensures i + |WeightMarker| <= |s|
    ensures InlineMatches(s, i, RunEnd(s, i + |WeightMarker|, IsSpace), InlineNumeralAt(s, i).value)
  {
    var w := RunEnd(s, i + |WeightMarker|, IsSpace);
    InlineFromSound(s, w);
    var n := InlineNumeralAt(s, i).value;
    assert n == InlineNumeralFrom(s, w).value;
    assert OccursAt(WeightMarker, s, i) && i + |WeightMarker| < w <= |s|;
  }

  /** Where the text of `n` occurs, its whole part is a run of digits and its
      fraction, if any, follows a dot. */
  lemma NumeralPartsAt(s: string, w: nat, n: Numeral)
    requires ValidNumeral(n) && OccursAt(NumeralText(n), s, w)
    ensures w + |n.whole| <= |s| && s[w..w + |n.whole|] == n.whole
    ensures forall q :: w <= q < w + |n.whole| ==> IsDigit(s[q])
    ensures n.frac != [] ==> FractionAt(s, w + |n.whole|)
    ensures n.frac != [] ==> s[w + |n.whole| + 1..w + |NumeralText(n)|] == n.frac
    ensures n.frac != [] ==> forall q :: w + |n.whole| + 1 <= q < w + |NumeralText(n)| ==> IsDigit(s[q])
  {
    var t := NumeralText(n);
    var j := w + |n.whole|;
    NumeralTextParts(n);
    forall q | w <= q < j ensures IsDigit(s[q]) {
      OccurrenceAt(t, s, w, q - w);
      assert t[q - w] == n.whole[q - w];
    }
    assert s[w..j] == n.whole by { assert s[w..j] == s[w..w + |t|][..|n.whole|]; }
    if n.frac != [] {
      var k := w + |t|;
      OccurrenceAt(t, s, w, |n.whole|);
      OccurrenceAt(t, s, w, |n.whole| + 1);
      assert t[|n.whole| + 1] == n.frac[0];
      forall q | j + 1 <= q < k ensures IsDigit(s[q]) {
        OccurrenceAt(t, s, w, q - w);
        assert t[q - w] == t[|n.whole| + 1..][q - j - 1] == n.frac[q - j - 1];
      }
      assert s[j + 1..k] == n.frac by { assert s[j + 1..k] == s[w..w + |t|][|n.whole| + 1..]; }
    }
  }

  /** The numeral part of the inline matcher captures the longest numeral
      that stands at `w` followed by a word boundary. */
  lemma InlineFromComplete(s: string, w: nat, n: Numeral)
    requires w <= |s| && ValidNumeral(n)
    requires OccursAt(NumeralText(n), s, w) && WordBoundaryAt(s, w + |NumeralText(n)|)
    ensures InlineNumeralFrom(s, w).Some?
    ensures |NumeralText(n)| <= |NumeralText(InlineNumeralFrom(s, w).value)|
    ensures n.frac != [] || !FractionAt(s, w + |n.whole|) ==> InlineNumeralFrom(s, w) == Some(n)
  {
    var j := w + |n.whole|;
    NumeralPartsAt(s, w, n);
    NumeralTextParts(n);
    if n.frac == [] {
      InlineWholeComplete(s, w, n);
    } else {
      InlineFracComplete(s, w, n);
    }
  }

  lemma InlineFracComplete(s: string, w: nat, n: Numeral)
    requires ValidNumeral(n) && n.frac != []
    requires w + |n.whole| + 1 + |n.frac| <= |s| && WordBoundaryAt(s, w + |n.whole| + 1 + |n.frac|)
    requires s[w..w + |n.whole|] == n.whole && FractionAt(s, w + |n.whole|)
    requires forall q :: w <= q < w + |n.whole| ==> IsDigit(s[q])
    requires s[w + |n.whole| + 1..w + |n.whole| + 1 + |n.frac|] == n.frac
    requires forall q :: w + |n.whole| + 1 <= q < w + |n.whole| + 1 + |n.frac| ==> IsDigit(s[q])
    ensures InlineNumeralFrom(s, w) == Some(n)
  {
    var j := w + |n.whole|;
    var k := j + 1 + |n.frac|;
    assert IsWordChar(s[k - 1]);
    assert k == |s| || !IsDigit(s[k]);
    RunEndUnique(s, w, j, IsDigit);
    RunEndUnique(s, j + 1, k, IsDigit);
    assert InlineNumeralFrom(s, w) == Some(Numeral(s[w..j], s[j + 1..k]));
    assert Numeral(s[w..j], s[j + 1..k]) == n;
  }

  lemma InlineWholeComplete(s: string, w: nat, n: Numeral)
    requires ValidNumeral(n) && n.frac == []
    requires OccursAt(n.whole, s, w) && WordBoundaryAt(s, w + |n.whole|)
    requires forall q :: w <= q < w + |n.whole| ==> IsDigit(s[q])
    requires s[w..w + |n.whole|] == n.whole
    ensures InlineNumeralFrom(s, w).Some?
    ensures |n.whole| <= |NumeralText(InlineNumeralFrom(s, w).value)|
    ensures !FractionAt(s, w + |n.whole|) ==> InlineNumeralFrom(s, w) == Some(n)
  {
    var j := w + |n.whole|;
    assert IsWordChar(s[j - 1]);
    assert j == |s| || !IsDigit(s[j]);
    RunEndUnique(s, w, j, IsDigit);
    var r := InlineNumeralFrom(s, w);
    if FractionAt(s, j) && WordBoundaryAt(s, RunEnd(s, j + 1, IsDigit)) {
      assert r.value.frac != [];
      assert |NumeralText(r.value)| > |r.value.whole| == |n.whole|;
    } else {
      assert r == Some(Numeral(s[w..j], []));
      assert Numeral(s[w..j], []) == n;
    }
  }

  /** At a position where the inline pattern can match, the matcher captures
      the longest numeral the pattern admits there; in particular it captures
      `n` itself when `n` has a fraction or no fraction follows it. */
  lemma InlineComplete(s: string, i: nat, w: nat, n: Numeral)
    requires InlineMatches(s, i, w, n)
    ensures InlineNumeralAt(s, i).Some?
    ensures |NumeralText(n)| <= |NumeralText(InlineNumeralAt(s, i).value)|
    ensures n.frac != [] || !FractionAt(s, w + |n.whole|) ==> InlineNumeralAt(s, i) == Some(n)
  {
    NumeralTextParts(n);
    OccurrenceAt(NumeralText(n), s, w, 0);
    RunEndUnique(s, i + |WeightMarker|, w, IsSpace);
    InlineFromComplete(s, w, n);
  }

  /** The inline matcher captures exactly the longest numeral the pattern
      admits at a position. */
  lemma InlineLongestCaptured(s: string, i: nat, w: nat, n: Numeral)
    requires InlineMatches(s, i, w, n)
    requires forall m :: InlineMatches(s, i, w, m) ==> |NumeralText(m)| <= |NumeralText(n)|
    ensures InlineNumeralAt(s, i) == Some(n)
  {
    InlineComplete(s, i, w, n);
    var c := InlineNumeralAt(s, i).value;
    InlineSound(s, i);
    NumeralTextParts(n);
    OccurrenceAt(NumeralText(n), s, w, 0);
    RunEndUnique(s, i + |WeightMarker|, w, IsSpace);
    assert InlineMatches(s, i, w, c);
    assert |NumeralText(c)| == |NumeralText(n)|;
    assert NumeralText(c) == s[w..w + |NumeralText(n)|] == NumeralText(n);
    NumeralTextInjective(c, n);
  }

  /** The engine gives the fraction back: when the whole digits are followed
      by `.` and a run of digits that runs into another word character, `\b`
      fails after the fraction and the capture is the whole digits alone,
      which is then the longest numeral the pattern admits there. */
  lemma InlineFractionGivenBack(s: string, i: nat, w: nat, n: Numeral)
    requires InlineMatches(s, i, w, n) && n.frac == []
    requires FractionAt(s, w + |n.whole|)
    requires var k := RunEnd(s, w + |n.whole| + 1, IsDigit); k < |s| && IsWordChar(s[k])
    ensures InlineNumeralAt(s, i) == Some(n)
    ensures forall m :: InlineMatches(s, i, w, m) ==> |NumeralText(m)| <= |NumeralText(n)|
  {
    var j := w + |n.whole|;
    NumeralTextParts(n);
    NumeralPartsAt(s, w, n);
    OccurrenceAt(NumeralText(n), s, w, 0);
    RunEndUnique(s, i + |WeightMarker|, w, IsSpace);
    RunEndUnique(s, w, j, IsDigit);
    var k := RunEnd(s, j + 1, IsDigit);
    assert !WordBoundaryAt(s, k);
    assert InlineNumeralFrom(s, w) == Some(Numeral(s[w..j], []));
    assert Numeral(s[w..j], []) == n;
    forall m | InlineMatches(s, i, w, m) ensures |NumeralText(m)| <= |NumeralText(n)| {
      InlineComplete(s, i, w, m);
    }
  }

  // ---------------------------------------------------------------------------
  // First match wins

  /** A position where `p` matches makes the search succeed, and the search
      reports that position exactly when no earlier position matches. */
  lemma {:induction false} SearchFromFindsLeftmost(p: Pattern, s: string, i: nat, j: nat, n: Numeral)
    requires i <= j <= |s| && NumeralAt(p, s, j) == Some(n)
    requires forall k :: i <= k < j ==> NumeralAt(p, s, k) == None
    ensures SearchFrom(p, s, i) == Some(Match(j, n))
    decreases j - i
  {
    if i < j {
      SearchFromFindsLeftmost(p, s, i + 1, j, n);
    }
  }

  lemma {:induction false} SearchFromFails(p: Pattern, s: string, i: nat)
    requires i <= |s|
    requires forall k :: i <= k <= |s| ==> NumeralAt(p, s, k) == None
    ensures SearchFrom(p, s, i) == None
    decreases |s| - i
  {
    if i < |s| {
      SearchFromFails(p, s, i + 1);
    }
  }

  /** What a search from `i` finds is a match, and no position before it matches. */
  lemma {:induction false} SearchFromFound(p: Pattern, s: string, i: nat)
    requires i <= |s| && SearchFrom(p, s, i).Some?
    ensures i <= SearchFrom(p, s, i).value.start <= |s|
    ensures NumeralAt(p, s, SearchFrom(p, s, i).value.start) == Some(SearchFrom(p, s, i).value.pts)
    ensures forall k :: i <= k < SearchFrom(p, s, i).value.start ==> NumeralAt(p, s, k) == None
    decreases |s| - i
  {
    if NumeralAt(p, s, i).None? {
      assert i < |s| && SearchFrom(p, s, i) == SearchFrom(p, s, i + 1);
      SearchFromFound(p, s, i + 1);
    } else {
      assert SearchFrom(p, s, i) == Some(Match(i, NumeralAt(p, s, i).value));
    }
  }

  /** The leftmost position at which the pattern matches is what the search finds. */
  lemma SearchFindsLeftmost(p: Pattern, s: string, i: nat, n: Numeral)
    requires i <= |s| && NumeralAt(p, s, i) == Some(n)
    requires forall k :: 0 <= k < i ==> NumeralAt(p, s, k) == None
    ensures Search(p, s) == Some(Match(i, n))
  {
    SearchFromFindsLeftmost(p, s, 0, i, n);
  }

  /** No position matches: the search fails. */
  lemma SearchFails(p: Pattern, s: string)
    requires forall k :: 0 <= k <= |s| ==> NumeralAt(p, s, k) == None
    ensures Search(p, s) == None
  {
    SearchFromFails(p, s, 0);
  }

  /** The loop over the patterns: the bracket search decides when it
      succeeds, the inline search only when the bracket search fails, and the
      default applies only when both fail. */
  lemma TitlePointsByPattern(s: string)
    ensures Search(ParenPattern, s).Some? ==> TitlePoints(s) == NumeralValue(Search(ParenPattern, s).value.pts)
    ensures Search(ParenPattern, s).None? && Search(InlinePattern, s).Some? ==>
              TitlePoints(s) == NumeralValue(Search(InlinePattern, s).value.pts)
    ensures Search(ParenPattern, s).None? && Search(InlinePattern, s).None? ==> TitlePoints(s) == DefaultStoryPoints
  {
    assert PointPatterns[1..] == [InlinePattern];
    if Search(ParenPattern, s).None? {
      assert FirstMatch(PointPatterns, s) == FirstMatch([InlinePattern], s);
      assert [InlinePattern][1..] == [];
      if Search(InlinePattern, s).Some? {
        assert FirstMatch([InlinePattern], s) == Some(Search(InlinePattern, s).value.pts);
      } else {
        assert FirstMatch([InlinePattern], s) == FirstMatch([], s);
      }
    }
  }

  /** The leftmost bracket match decides the points, whatever else the title
      holds (an inline `weight:` marker included). */
  lemma BracketWins(s: string, i: nat, n: Numeral)
    requires ParenMatches(s, i, n)
    requires forall k, m :: 0 <= k < i ==> !ParenMatches(s, k, m)
    ensures TitlePoints(s) == NumeralValue(n)
  {
    ParenComplete(s, i, n);
    forall k | 0 <= k < i ensures ParenNumeralAt(s, k) == None {
      if ParenNumeralAt(s, k).Some? { ParenSound(s, k); }
    }
    SearchFindsLeftmost(ParenPattern, s, i, n);
    TitlePointsByPattern(s);
  }

  /** The text of a valid numeral determines the numeral: the whole digits
      stop at the first non-digit, which is the decimal point. */
  lemma NumeralTextInjective(a: Numeral, b: Numeral)
    requires ValidNumeral(a) && ValidNumeral(b)
    requires NumeralText(a) == NumeralText(b)
    ensures a == b
  {
    NumeralTextParts(a);
    NumeralTextParts(b);
    var t := NumeralText(a);
    assert |a.whole| == |b.whole|;
    assert a.whole == t[..|a.whole|] == b.whole;
  }

  /** With no bracket match anywhere, the leftmost `weight:` match decides the
      points. At that position the engine takes the longest numeral the
      pattern admits: `weight: 5.5x` is worth 5, since `\b` fails after `5.5`. */
  lemma WeightWhenNoBracket(s: string, i: nat, w: nat, n: Numeral)
    requires forall k, m :: !ParenMatches(s, k, m)
    requires InlineMatches(s, i, w, n)
    requires forall k, w', m :: 0 <= k < i ==> !InlineMatches(s, k, w', m)
    requires forall m :: InlineMatches(s, i, w, m) ==> |NumeralText(m)| <= |NumeralText(n)|
    ensures TitlePoints(s) == NumeralValue(n)
  {
    forall k | 0 <= k <= |s| ensures ParenNumeralAt(s, k) == None {
      if ParenNumeralAt(s, k).Some? { ParenSound(s, k); }
    }
    SearchFails(ParenPattern, s);
    InlineLongestCaptured(s, i, w, n);
    assert i <= |s|;
    forall k | 0 <= k < i ensures InlineNumeralAt(s, k) == None {
      if InlineNumeralAt(s, k).Some? { InlineSound(s, k); }
    }
    SearchFindsLeftmost(InlinePattern, s, i, n);
    TitlePointsByPattern(s);
  }

  /** A title that neither pattern matches is worth the default point. */
  lemma DefaultWhenNoMatch(s: string)
    requires forall k, m :: !ParenMatches(s, k, m)
    requires forall k, w, m :: !InlineMatches(s, k, w, m)
    ensures TitlePoints(s) == DefaultStoryPoints
  {
    forall k | 0 <= k <= |s| ensures ParenNumeralAt(s, k) == None && InlineNumeralAt(s, k) == None {
      if ParenNumeralAt(s, k).Some? { ParenSound(s, k); }
      if InlineNumeralAt(s, k).Some? { InlineSound(s, k); }
    }
    SearchFails(ParenPattern, s);
    SearchFails(InlinePattern, s);
    TitlePointsByPattern(s);
  }

  /** A title with no open bracket and no `weight:` is worth the default point. */
  lemma DefaultWithoutMarkers(s: string)
    requires forall k :: 0 <= k < |s| ==> !IsOpen(s[k])
    requires !Occurs(WeightMarker, s)
    ensures TitlePoints(s) == DefaultStoryPoints
  {
    forall k, w, m ensures !InlineMatches(s, k, w, m) {
    }
    DefaultWhenNoMatch(s);
  }

  // ---------------------------------------------------------------------------
  // Writing points in brackets and reading them back

  /** The decimal digits of `x`. */
  function NatText(x: nat): (t: string)
    ensures |t| > 0 && All(t, IsDigit) && DigitsValue(t) == x
    ensures x < 10 ==> |t| == 1
  {
    var d := [('0' as int + x % 10) as char];
    if x < 10 then d
    else
      var t := NatText(x / 10) + d;
      assert t[..|t| - 1] == NatText(x / 10);
      t
  }

  /** A bracketed numeral preceded by no bracket decides the points. */
  lemma LeadingBracketWins(prefix: string, open: char, n: Numeral, marker: string, close: char, rest: string)
    requires forall k :: 0 <= k < |prefix| ==> !IsOpen(prefix[k])
    requires IsOpen(open) && IsClose(close) && (marker == "" || marker == "P" || marker == "p")
    requires ValidNumeral(n)
    ensures TitlePoints(prefix + [open] + NumeralText(n) + marker + [close] + rest) == NumeralValue(n)
  {
    var s := prefix + [open] + NumeralText(n) + marker + [close] + rest;
    var i := |prefix|;
    var t := NumeralText(n);
    assert s[i] == open;
    assert s[i + 1..i + 1 + |t|] == t;
    assert s[i + 1 + |t|..i + 1 + |t| + |marker| + 1] == marker + [close];
    assert ParenMatches(s, i, n);
    forall k, m | 0 <= k < i ensures !ParenMatches(s, k, m) {
      assert s[k] == prefix[k];
    }
    BracketWins(s, i, n);
  }

  /** A numeral written in round brackets reads back as its own value. */
  lemma BracketRoundTrip(n: Numeral)
    requires ValidNumeral(n)
    ensures TitlePoints("(" + NumeralText(n) + ")") == NumeralValue(n)
  {
    assert "(" + NumeralText(n) + ")" == [] + ['('] + NumeralText(n) + [] + [')'] + [];
    LeadingBracketWins([], '(', n, [], ')', []);
  }

  /** `(N)` of a whole number N reads back as N. */
  lemma WholeRoundTrip(x: nat)
    ensures TitlePoints("(" + NatText(x) + ")") == x as real
  {
    BracketRoundTrip(Numeral(NatText(x), []));
  }

  /** A numeral with one decimal is worth its whole part plus tenths. */
  lemma TenthsValue(x: nat, tenths: nat)
    requires tenths < 10
    ensures ValidNumeral(Numeral(NatText(x), NatText(tenths)))
    ensures NumeralValue(Numeral(NatText(x), NatText(tenths))) == x as real + tenths as real / 10.0
  {
    assert Pow10(1) == 10 * Pow10(0);
  }

  /** A numeral with a fraction, written in brackets, is the bracketed whole
      part, a dot and the fraction. */
  lemma DecimalInParens(whole: string, frac: string)
    requires frac != []
    ensures "(" + whole + "." + frac + ")" == "(" + NumeralText(Numeral(whole, frac)) + ")"
  {
    assert "(" + whole + "." + frac == "(" + (whole + "." + frac);
  }

  /** `(N.d)` with one decimal reads back as N + d/10, exactly. */
  lemma TenthsRoundTrip(x: nat, tenths: nat)
    requires tenths < 10
    ensures TitlePoints("(" + NatText(x) + "." + NatText(tenths) + ")") == x as real + tenths as real / 10.0
  {
    var whole, frac := NatText(x), NatText(tenths);
    var n := Numeral(whole, frac);
    TenthsValue(x, tenths);
    DecimalInParens(whole, frac);
    BracketRoundTrip(n);
  }
}
