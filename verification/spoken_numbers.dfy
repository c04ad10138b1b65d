/**
 * `normalize_numbers_for_tts`: every decimal matched by
 * `\b(\d+)\s*\.\s*(\d+)\b` is replaced by its integer part when the
 * fraction is all zeros, and by "<int> point <frac>" otherwise, so that
 * speech synthesis does not read the point as a sentence end.
 */
module SpokenNumbers {
  import opened Wrappers
  import opened Text
  import opened Decimals

  /** `\b` at position `p`: a word character on exactly one side. */
  predicate WordBoundary(s: string, p: nat)
    requires p <= |s|
  {
    (p > 0 && IsWordChar(s[p - 1])) != (p < |s| && IsWordChar(s[p]))
  }

  /**
   * `t` read as `\d+\s*\.\s*\d+`: integer digits `t[..a]`, blanks `t[a..d]`,
   * the point `t[d]`, blanks `t[d + 1..b]` and fraction digits `t[b..]`.
   */
  predicate DecimalShape(t: string, a: nat, d: nat, b: nat) {
    && 0 < a <= d < b < |t|
    && AllDigits(t[..a]) && AllSpace(t[a..d]) && t[d] == '.'
    && AllSpace(t[d + 1..b]) && AllDigits(t[b..])
  }

  /** `s[p..e]` is a whole match of the pattern, word boundaries included. */
  ghost predicate DecimalMatch(s: string, p: nat, e: nat)
    requires p <= e <= |s|
  {
    WordBoundary(s, p) && WordBoundary(s, e) && exists a, d, b :: DecimalShape(s[p..e], a, d, b)
  }

  /** End of the maximal run of whitespace that starts at `i`. */
  function SpaceRunEnd(s: string, i: nat): (j: nat)
    requires i <= |s|
    ensures i <= j <= |s|
    ensures AllSpace(s[i..j])
    ensures j == |s| || !IsSpace(s[j])
    decreases |s| - i
  {
    if i < |s| && IsSpace(s[i]) then SpaceRunEnd(s, i + 1) else i
  }

  /** The two groups of a match and where it ends. */
  datatype Decimal = Decimal(intPart: string, fracPart: string, end: nat)

  /** The match of the pattern starting at `p`, if there is one. */
  function DecimalAt(s: string, p: nat): (r: Option<Decimal>)
    requires p <= |s|
    ensures r.Some? ==> p < r.value.end <= |s|
  {
    if !WordBoundary(s, p) then None
    else
      var a := DigitRunEnd(s, p);
      if a == p then None
      else
        var d := SpaceRunEnd(s, a);
        if d == |s| || s[d] != '.' then None
        else
          var b := SpaceRunEnd(s, d + 1);
          var e := DigitRunEnd(s, b);
          if e == b || !WordBoundary(s, e) then None
          else Some(Decimal(s[p..a], s[b..e], e))
  }

  /** `set(frac_part) == {"0"}` */
  predicate AllZeros(f: string) {
    f != [] && forall k :: 0 <= k < |f| ==> f[k] == '0'
  }

  /** The replacement of one match. */
  function Spoken(intPart: string, fracPart: string): string {
    if AllZeros(fracPart) then intPart else intPart + " point " + fracPart
  }

  /** `re.sub` from position `i`: matches are replaced, other characters copied. */
  function NormalizeFrom(s: string, i: nat): string
    requires i <= |s|
    decreases |s| - i
  {
    if i == |s| then []
    else
      match DecimalAt(s, i)
      case Some(m) => Spoken(m.intPart, m.fracPart) + NormalizeFrom(s, m.end)
      case None => [s[i]] + NormalizeFrom(s, i + 1)
  }

  /** `normalize_numbers_for_tts` */
  function NormalizeNumbers(text: string): string {
    NormalizeFrom(text, 0)
  }

  // ---------------------------------------------------------------------------
  // The scanner finds exactly the pattern's match.

  lemma DigitRunEndExact(s: string, i: nat, j: nat)
    requires i <= j <= |s| && AllDigits(s[i..j]) && (j == |s| || !IsDigit(s[j]))
    ensures DigitRunEnd(s, i) == j
    decreases j - i
  {
    if i < j {
      assert s[i + 1..j] == s[i..j][1..];
      DigitRunEndExact(s, i + 1, j);
    }
  }

  lemma SpaceRunEndExact(s: string, i: nat, j: nat)
    requires i <= j <= |s| && AllSpace(s[i..j]) && (j == |s| || !IsSpace(s[j]))
    ensures SpaceRunEnd(s, i) == j
    decreases j - i
  {
    if i < j {
      assert s[i + 1..j] == s[i..j][1..];
      SpaceRunEndExact(s, i + 1, j);
    }
  }

  /** What the scanner finds is a match of the pattern. */
  lemma DecimalAtSound(s: string, p: nat)
    requires p <= |s| && DecimalAt(s, p).Some?
    ensures DecimalMatch(s, p, DecimalAt(s, p).value.end)
  {
    var a := DigitRunEnd(s, p);
    var d := SpaceRunEnd(s, a);
    var b := SpaceRunEnd(s, d + 1);
    var e := DigitRunEnd(s, b);
    SoundShape(s, p, a, d, b, e);
  }

  lemma SoundShape(s: string, p: nat, a: nat, d: nat, b: nat, e: nat)
    requires p < a <= d < b < e <= |s|
    requires AllDigits(s[p..a]) && AllSpace(s[a..d]) && s[d] == '.' && AllSpace(s[d + 1..b]) && AllDigits(s[b..e])
    ensures DecimalShape(s[p..e], a - p, d - p, b - p)
  {
    var t := s[p..e];
    SliceOfSlice(s, p, e, 0, a - p);
    SliceOfSlice(s, p, e, a - p, d - p);
    SliceOfSlice(s, p, e, d + 1 - p, b - p);
    SliceOfSlice(s, p, e, b - p, e - p);
    assert t[..a - p] == t[0..a - p];
    assert t[b - p..] == t[b - p..e - p];
  }

  /** A match of the pattern at `p` is the one the scanner finds. */
  lemma DecimalAtComplete(s: string, p: nat, e: nat, a: nat, d: nat, b: nat)
    requires p <= e <= |s| && WordBoundary(s, p) && WordBoundary(s, e)
    requires DecimalShape(s[p..e], a, d, b)
    ensures DecimalAt(s, p) == Some(Decimal(s[p..p + a], s[p + b..e], e))
  {
    IntegerRun(s, p, e, a, d, b);
    SpacesBeforePoint(s, p, e, a, d, b);
    SpacesAfterPoint(s, p, e, a, d, b);
    FractionRun(s, p, e, a, d, b);
    DecimalAtBy(s, p, p + a, p + d, p + b, e);
  }

  lemma IntegerRun(s: string, p: nat, e: nat, a: nat, d: nat, b: nat)
    requires p <= e <= |s| && WordBoundary(s, e) && DecimalShape(s[p..e], a, d, b)
    ensures DigitRunEnd(s, p) == p + a && a > 0
  {
    CompleteSlices(s, p, e, a, d, b);
    DigitRunEndExact(s, p, p + a);
  }

  lemma SpacesBeforePoint(s: string, p: nat, e: nat, a: nat, d: nat, b: nat)
    requires p <= e <= |s| && WordBoundary(s, e) && DecimalShape(s[p..e], a, d, b)
    ensures SpaceRunEnd(s, p + a) == p + d && p + d < |s| && s[p + d] == '.'
  {
    CompleteSlices(s, p, e, a, d, b);
    SpaceRunEndExact(s, p + a, p + d);
  }

  lemma SpacesAfterPoint(s: string, p: nat, e: nat, a: nat, d: nat, b: nat)
    requires p <= e <= |s| && WordBoundary(s, e) && DecimalShape(s[p..e], a, d, b)
    ensures SpaceRunEnd(s, p + d + 1) == p + b
  {
    CompleteSlices(s, p, e, a, d, b);
    SpaceRunEndExact(s, p + d + 1, p + b);
  }

  lemma FractionRun(s: string, p: nat, e: nat, a: nat, d: nat, b: nat)
    requires p <= e <= |s| && WordBoundary(s, e) && DecimalShape(s[p..e], a, d, b)
    ensures DigitRunEnd(s, p + b) == e && p + b < e
  {
    CompleteSlices(s, p, e, a, d, b);
    DigitRunEndExact(s, p + b, e);
  }

  /** `DecimalAt` when the runs are known. */
  lemma DecimalAtBy(s: string, p: nat, a: nat, d: nat, b: nat, e: nat)
    requires p <= |s| && WordBoundary(s, p)
    requires DigitRunEnd(s, p) == a && a != p
    requires SpaceRunEnd(s, a) == d && d < |s| && s[d] == '.'
    requires SpaceRunEnd(s, d + 1) == b && DigitRunEnd(s, b) == e && e != b && WordBoundary(s, e)
    ensures DecimalAt(s, p) == Some(Decimal(s[p..a], s[b..e], e))
  {
  }

  lemma CompleteSlices(s: string, p: nat, e: nat, a: nat, d: nat, b: nat)
    requires p <= e <= |s| && WordBoundary(s, e)
    requires DecimalShape(s[p..e], a, d, b)
    ensures AllDigits(s[p..p + a]) && !IsDigit(s[p + a])
    ensures AllSpace(s[p + a..p + d]) && s[p + d] == '.'
    ensures AllSpace(s[p + d + 1..p + b]) && !IsSpace(s[p + b])
    ensures AllDigits(s[p + b..e]) && p + b < e && (e == |s| || !IsDigit(s[e]))
  {
    var t := s[p..e];
    SliceOfSlice(s, p, e, 0, a);
    SliceOfSlice(s, p, e, a, d);
    SliceOfSlice(s, p, e, d + 1, b);
    SliceOfSlice(s, p, e, b, e - p);
    assert t[..a] == t[0..a];
    assert t[b..] == t[b..e - p];
    assert s[p + a] == t[a];
    assert s[p + d] == t[d];
    assert s[p + b] == t[b];
    assert s[e - 1] == t[|t| - 1];
    assert IsDigit(t[b..][|t| - 1 - b]);
  }

  /** The pattern matches at most one text at each position, and `DecimalAt` finds it. */
  lemma DecimalAtIsTheMatch(s: string, p: nat, e: nat)
    requires p <= e <= |s|
    ensures DecimalMatch(s, p, e) <==> DecimalAt(s, p).Some? && DecimalAt(s, p).value.end == e
  {
    if DecimalMatch(s, p, e) {
      var a, d, b :| DecimalShape(s[p..e], a, d, b);
      DecimalAtComplete(s, p, e, a, d, b);
    }
    if DecimalAt(s, p).Some? && DecimalAt(s, p).value.end == e {
      DecimalAtSound(s, p);
    }
  }

  // ---------------------------------------------------------------------------
  // The substitution.

  lemma {:induction false} NormalizeFromNoDot(s: string, i: nat)
    requires i <= |s| && '.' !in s[i..]
    ensures NormalizeFrom(s, i) == s[i..]
    decreases |s| - i
  {
    if i < |s| {
      NoDotNoDecimal(s, i);
      assert s[i + 1..] == s[i..][1..];
      NormalizeFromNoDot(s, i + 1);
    }
  }

  lemma NoDotNoDecimal(s: string, i: nat)
    requires i < |s| && '.' !in s[i..]
    ensures DecimalAt(s, i).None?
  {
    if DecimalAt(s, i).Some? {
      assert false;
    }
  }

  /** Text without a '.' is left as it is. */
  lemma NormalizeNoDot(text: string)
    requires '.' !in text
    ensures NormalizeNumbers(text) == text
  {
    assert text[0..] == text;
    NormalizeFromNoDot(text, 0);
    assert NormalizeNumbers(text) == NormalizeFrom(text, 0);
  }

  /** A text that is one decimal, `<digits>.<digits>`, is read out whole. */
  lemma NormalizeWholeDecimal(i: string, f: string)
    requires i != [] && f != [] && AllDigits(i) && AllDigits(f)
    ensures NormalizeNumbers(i + "." + f) == Spoken(i, f)
  {
    var s := i + "." + f;
    WholeDecimalMatch(i, f);
    assert NormalizeFrom(s, 0) == Spoken(i, f) + NormalizeFrom(s, |s|);
  }

  lemma WholeDecimalMatch(i: string, f: string)
    requires i != [] && f != [] && AllDigits(i) && AllDigits(f)
    ensures DecimalAt(i + "." + f, 0) == Some(Decimal(i, f, |i| + 1 + |f|))
  {
    var s := i + "." + f;
    var n := |i|;
    WholeDecimalSlices(i, f);
    DigitRunEndExact(s, 0, n);
    SpaceRunEndExact(s, n, n);
    SpaceRunEndExact(s, n + 1, n + 1);
    DigitRunEndExact(s, n + 1, |s|);
    DecimalAtBy(s, 0, n, n, n + 1, |s|);
  }

  lemma WholeDecimalSlices(i: string, f: string)
    requires i != [] && f != [] && AllDigits(i) && AllDigits(f)
    ensures var s := i + "." + f; var n := |i|;
      && s[0..n] == i && s[n] == '.' && s[n + 1..|s|] == f
      && IsDigit(s[0]) && IsDigit(s[n + 1]) && IsDigit(s[|s| - 1])
      && s[n..n] == [] && s[n + 1..n + 1] == []
  {
    var s := i + "." + f;
    assert s[|s| - 1] == f[|f| - 1];
  }

  /** A fraction of zeros is dropped; any other is read after "point". */
  lemma SpokenCases(i: string, f: string)
    ensures AllZeros(f) ==> Spoken(i, f) == i
    ensures !AllZeros(f) ==> Spoken(i, f) == i + " point " + f
  {
  }
}
