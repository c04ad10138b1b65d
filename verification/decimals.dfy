/**
 * Decimal literals as the parser's regular expressions see them:
 * `-?\d+(?:\.\d+)?` (signed) and `\d+(?:\.\d+)?` (unsigned), a scanner that
 * does what `re.findall` does with them, the exact value of a literal, and
 * the decimal rendering of integers.
 */
module Decimals {
  import opened Text

  /** The half-open index range `[start, end)` of one regex match. */
  datatype Match = Match(start: nat, end: nat)

  // ---------------------------------------------------------------------------
  // The grammar of a literal, stated independently of any scanner.

  ghost predicate IsUnsignedLiteral(t: string) {
    || (|t| > 0 && AllDigits(t))
    || (exists k | 0 < k < |t| - 1 :: t[k] == '.' && AllDigits(t[..k]) && AllDigits(t[k + 1..]))
  }

  /** `t` is a whole match of the pattern (with the optional '-' when `signed`). */
  ghost predicate IsLiteral(t: string, signed: bool) {
    IsUnsignedLiteral(t) || (signed && |t| > 1 && t[0] == '-' && IsUnsignedLiteral(t[1..]))
  }

  ghost predicate NoLiteralAt(s: string, p: nat, signed: bool) {
    forall j | p < j <= |s| :: !IsLiteral(s[p..j], signed)
  }

  /** `m` is the longest literal that starts at `m.start`: what the greedy pattern takes there. */
  ghost predicate LongestLiteral(s: string, m: Match, signed: bool) {
    && m.start < m.end <= |s|
    && IsLiteral(s[m.start..m.end], signed)
    && forall j | m.end < j <= |s| :: !IsLiteral(s[m.start..j], signed)
  }

  /**
   * `ms` is what `re.findall` reports when scanning `s` from `from`: each match
   * is the longest literal at the first position (at or after the end of the
   * previous match) where a literal starts, and no literal starts after the last.
   */
  ghost predicate LeftmostMatches(s: string, from: nat, ms: seq<Match>, signed: bool)
    decreases |ms|
  {
    if ms == [] then
      forall p | from <= p < |s| :: NoLiteralAt(s, p, signed)
    else
      && from <= ms[0].start
      && (forall p | from <= p < ms[0].start :: NoLiteralAt(s, p, signed))
      && LongestLiteral(s, ms[0], signed)
      && LeftmostMatches(s, ms[0].end, ms[1..], signed)
  }

  // ---------------------------------------------------------------------------
  // The scanner.

  /** End of the maximal run of digits that starts at `i`. */
  function DigitRunEnd(s: string, i: nat): (j: nat)
    requires i <= |s|
    ensures i <= j <= |s|
    ensures AllDigits(s[i..j])
    ensures j == |s| || !IsDigit(s[j])
    decreases |s| - i
  {
    if i < |s| && IsDigit(s[i]) then DigitRunEnd(s, i + 1) else i
  }

  /** Where `\d+(?:\.\d+)?` ends when its digits start at `i`. */
  function UnsignedEnd(s: string, i: nat): (j: nat)
    requires i < |s| && IsDigit(s[i])
    ensures i < j <= |s|
  {
    FractionEnd(s, DigitRunEnd(s, i))
  }

  /** Where `(?:\.\d+)?` ends when it starts at `p`: after the digits following a point, or at `p`. */
  function FractionEnd(s: string, p: nat): (j: nat)
    requires p <= |s|
    ensures p <= j <= |s|
  {
    if p + 1 < |s| && s[p] == '.' && IsDigit(s[p + 1]) then DigitRunEnd(s, p + 1) else p
  }

  /** A match of the pattern can begin at `i`. */
  predicate StartsAt(s: string, i: nat, signed: bool) {
    i < |s| && (IsDigit(s[i]) || (signed && s[i] == '-' && i + 1 < |s| && IsDigit(s[i + 1])))
  }

  function EndAt(s: string, i: nat, signed: bool): (j: nat)
    requires StartsAt(s, i, signed)
    ensures i < j <= |s|
  {
    if IsDigit(s[i]) then UnsignedEnd(s, i) else UnsignedEnd(s, i + 1)
  }

  /** Match `k` ends no later than match `k + 1` starts. */
  predicate EndsBeforeNext(ms: seq<Match>, k: int) {
    0 <= k && k + 1 < |ms| ==> ms[k].end <= ms[k + 1].start
  }

  function FindAllFrom(s: string, i: nat, signed: bool): (ms: seq<Match>)
    requires i <= |s|
    ensures forall k :: 0 <= k < |ms| ==> i <= ms[k].start < ms[k].end <= |s|
    ensures forall k :: 0 <= k < |ms| - 1 ==> EndsBeforeNext(ms, k)
    decreases |s| - i
  {
    if i == |s| then []
    else if StartsAt(s, i, signed) then
      var e := EndAt(s, i, signed);
      ConsInOrder(Match(i, e), FindAllFrom(s, e, signed));
      [Match(i, e)] + FindAllFrom(s, e, signed)
    else FindAllFrom(s, i + 1, signed)
  }

  lemma ConsInOrder(m: Match, rest: seq<Match>)
    requires forall k :: 0 <= k < |rest| - 1 ==> EndsBeforeNext(rest, k)
    requires rest != [] ==> m.end <= rest[0].start
    ensures forall k :: 0 <= k < |rest| ==> EndsBeforeNext([m] + rest, k)
  {
    var ms := [m] + rest;
    forall k | 0 <= k < |rest| ensures EndsBeforeNext(ms, k) {
      if k > 0 {
        assert EndsBeforeNext(rest, k - 1);
        assert ms[k] == rest[k - 1] && ms[k + 1] == rest[k];
      }
    }
  }

  /** `re.findall` (as match positions) with the signed or the unsigned pattern. */
  function FindAll(s: string, signed: bool): (ms: seq<Match>)
    ensures forall k :: 0 <= k < |ms| ==> ms[k].start < ms[k].end <= |s|
  {
    FindAllFrom(s, 0, signed)
  }

  // ---------------------------------------------------------------------------
  // The scanner agrees with the grammar.

  lemma LiteralStartsWithDigitOrMinus(t: string, signed: bool)
    ensures IsLiteral(t, signed) ==> IsDigit(t[0]) || (signed && t[0] == '-' && IsDigit(t[1]))
  {
    UnsignedStartsWithDigit(t);
    if |t| > 0 {
      UnsignedStartsWithDigit(t[1..]);
    }
  }

  lemma UnsignedStartsWithDigit(t: string)
    ensures IsUnsignedLiteral(t) ==> IsDigit(t[0])
  {
    if IsUnsignedLiteral(t) && !(|t| > 0 && AllDigits(t)) {
      var k :| 0 < k < |t| - 1 && t[k] == '.' && AllDigits(t[..k]) && AllDigits(t[k + 1..]);
      assert t[..k][0] == t[0];
    }
  }

  /** No literal can begin where the scanner sees no start. */
  lemma NoStartNoLiteral(s: string, p: nat, signed: bool)
    requires p <= |s| && !StartsAt(s, p, signed)
    ensures NoLiteralAt(s, p, signed)
  {
    forall j | p < j <= |s|
      ensures !IsLiteral(s[p..j], signed)
    {
      LiteralStartsWithDigitOrMinus(s[p..j], signed);
      assert s[p..j][0] == s[p];
      assert p + 1 < j ==> s[p..j][1] == s[p + 1];
    }
  }

  /**
   * In an unsigned literal whose first `m` characters are digits and whose
   * character `m` is not a digit, that character is the decimal point.
   */
  lemma DotIsFirstNonDigit(t: string, m: nat)
    requires m < |t| && AllDigits(t[..m]) && !IsDigit(t[m])
    ensures IsUnsignedLiteral(t) ==> 0 < m < |t| - 1 && t[m] == '.' && AllDigits(t[m + 1..])
  {
    if IsUnsignedLiteral(t) {
      assert !AllDigits(t);
      var k :| 0 < k < |t| - 1 && t[k] == '.' && AllDigits(t[..k]) && AllDigits(t[k + 1..]);
      assert forall i :: 0 <= i < m ==> t[..m][i] == t[i];
      assert forall i :: 0 <= i < k ==> t[..k][i] == t[i];
      assert k == m;
    }
  }

  lemma UnsignedEndIsLongest(s: string, q: nat)
    requires q < |s| && IsDigit(s[q])
    ensures IsUnsignedLiteral(s[q..UnsignedEnd(s, q)])
    ensures forall j | UnsignedEnd(s, q) < j <= |s| :: !IsUnsignedLiteral(s[q..j])
  {
    var a := DigitRunEnd(s, q);
    var e := UnsignedEnd(s, q);
    UnsignedEndIsLiteral(s, q, a, e);
    forall j | e < j <= |s|
      ensures !IsUnsignedLiteral(s[q..j])
    {
      NoLongerLiteral(s, q, a, e, j);
    }
  }

  /** The digits from `q`, with the fraction after them if there is one, form a literal. */
  lemma UnsignedEndIsLiteral(s: string, q: nat, a: nat, e: nat)
    requires q < a <= |s| && a == DigitRunEnd(s, q) && e == FractionEnd(s, a)
    ensures IsUnsignedLiteral(s[q..e])
  {
    if e == a {
      assert |s[q..e]| > 0 && AllDigits(s[q..e]);
    } else {
      var t := s[q..e];
      var k := a - q;
      assert t[..k] == s[q..a];
      assert t[k + 1..] == s[a + 1..e];
      assert 0 < k < |t| - 1 && t[k] == '.' && AllDigits(t[..k]) && AllDigits(t[k + 1..]);
    }
  }

  /** No literal from `q` runs past the end of its digits and fraction. */
  lemma NoLongerLiteral(s: string, q: nat, a: nat, e: nat, j: nat)
    requires q < a <= |s| && a == DigitRunEnd(s, q) && e == FractionEnd(s, a) && e < j <= |s|
    ensures !IsUnsignedLiteral(s[q..j])
  {
    var t := s[q..j];
    assert t[..a - q] == s[q..a];
    assert t[a - q] == s[a];
    DotIsFirstNonDigit(t, a - q);
    assert a - q + 1 < |t| ==> s[a + 1] == t[a - q + 1];
    var b := DigitRunEnd(s, a + 1);
    assert b < j ==> t[a - q + 1..][b - a - 1] == s[b];
  }

  lemma EndAtIsLongest(s: string, i: nat, signed: bool)
    requires StartsAt(s, i, signed)
    ensures LongestLiteral(s, Match(i, EndAt(s, i, signed)), signed)
  {
    var e := EndAt(s, i, signed);
    if IsDigit(s[i]) {
      UnsignedEndIsLongest(s, i);
      forall j | e < j <= |s|
        ensures !IsLiteral(s[i..j], signed)
      {
        assert s[i..j][0] == s[i];
      }
    } else {
      UnsignedEndIsLongest(s, i + 1);
      assert s[i..e][1..] == s[i + 1..e];
      forall j | e < j <= |s|
        ensures !IsLiteral(s[i..j], signed)
      {
        assert s[i..j][1..] == s[i + 1..j];
        assert s[i..j][0] == s[i];
        UnsignedStartsWithDigit(s[i..j]);
      }
    }
  }

  lemma {:induction false} FindAllFromIsLeftmost(s: string, i: nat, signed: bool)
    requires i <= |s|
    ensures LeftmostMatches(s, i, FindAllFrom(s, i, signed), signed)
    decreases |s| - i
  {
    if i == |s| {
    } else if StartsAt(s, i, signed) {
      var e := EndAt(s, i, signed);
      EndAtIsLongest(s, i, signed);
      FindAllFromIsLeftmost(s, e, signed);
      assert FindAllFrom(s, i, signed)[1..] == FindAllFrom(s, e, signed);
    } else {
      NoStartNoLiteral(s, i, signed);
      FindAllFromIsLeftmost(s, i + 1, signed);
    }
  }

  /** `FindAll` reports exactly the leftmost-longest, non-overlapping literals. */
  lemma FindAllIsLeftmost(s: string, signed: bool)
    ensures LeftmostMatches(s, 0, FindAll(s, signed), signed)
  {
    FindAllFromIsLeftmost(s, 0, signed);
  }

  // ---------------------------------------------------------------------------
  // Values.

  function DigitValue(c: char): nat {
    if IsDigit(c) then c as int - '0' as int else 0
  }

  /** The number a string of decimal digits denotes. */
  function DigitsValue(d: string): nat
    decreases |d|
  {
    if d == [] then 0 else DigitsValue(d[..|d| - 1]) * 10 + DigitValue(d[|d| - 1])
  }

  function Pow10(n: nat): (p: nat)
    ensures p > 0
  {
    if n == 0 then 1 else 10 * Pow10(n - 1)
  }

  function UnsignedValue(u: string): real {
    if '.' in u then
      var k := IndexOf(u, '.');
      DigitsValue(u[..k]) as real + DigitsValue(u[k + 1..]) as real / Pow10(|u| - k - 1) as real
    else DigitsValue(u) as real
  }

  /** Python's `float()` of a literal, computed exactly (no binary rounding). */
  function LiteralValue(t: string): real {
    if |t| > 0 && t[0] == '-' then -UnsignedValue(t[1..]) else UnsignedValue(t)
  }

  function MatchText(s: string, m: Match): string
    requires m.start <= m.end <= |s|
  {
    s[m.start..m.end]
  }

  function MatchValue(s: string, m: Match): real
    requires m.start <= m.end <= |s|
  {
    LiteralValue(MatchText(s, m))
  }

  // ---------------------------------------------------------------------------
  // Rendering integers.

  function DigitChar(d: nat): (c: char)
    requires d < 10
    ensures IsDigit(c) && DigitValue(c) == d
  {
    ('0' as int + d) as char
  }

  /** `str(n)` for a natural number. */
  function NatToString(n: nat): (r: string)
    ensures |r| > 0 && AllDigits(r)
    ensures DigitsValue(r) == n
    ensures r[0] == '0' ==> n == 0
    decreases n
  {
    if n < 10 then [DigitChar(n)]
    else
      var r := NatToString(n / 10) + [DigitChar(n % 10)];
      assert r[..|r| - 1] == NatToString(n / 10);
      r
  }

  lemma NatToStringInjective(a: nat, b: nat)
    requires NatToString(a) == NatToString(b)
    ensures a == b
  {
  }

  /** `str(i)` for an integer. */
  function IntToString(i: int): (r: string)
    ensures i >= 0 ==> r == NatToString(i)
    ensures i < 0 ==> r == "-" + NatToString(-i)
  {
    if i < 0 then "-" + NatToString(-i) else NatToString(i)
  }

  lemma {:induction false} DigitRunOfDigits(s: string, i: nat)
    requires i <= |s| && AllDigits(s[i..])
    ensures DigitRunEnd(s, i) == |s|
    decreases |s| - i
  {
    if i < |s| {
      assert s[i..][0] == s[i];
      assert s[i + 1..] == s[i..][1..];
      DigitRunOfDigits(s, i + 1);
    }
  }

  lemma UnsignedValueOfDigits(d: string)
    requires AllDigits(d)
    ensures UnsignedValue(d) == DigitsValue(d) as real
  {
    assert forall k :: 0 <= k < |d| ==> d[k] != '.';
  }

  /** A rendered natural number is one literal for either pattern, and reads back as the number. */
  lemma NatToStringScansBack(n: nat, signed: bool)
    ensures FindAll(NatToString(n), signed) == [Match(0, |NatToString(n)|)]
    ensures LiteralValue(NatToString(n)) == n as real
  {
    var d := NatToString(n);
    DigitRunOfDigits(d, 0);
    assert EndAt(d, 0, signed) == |d|;
    UnsignedValueOfDigits(d);
    assert FindAllFrom(d, |d|, signed) == [];
  }

  /** Rendering an integer and scanning it back yields one match: the whole string, with the same value. */
  lemma IntToStringScansBack(i: int)
    ensures FindAll(IntToString(i), true) == [Match(0, |IntToString(i)|)]
    ensures LiteralValue(IntToString(i)) == i as real
  {
    var s := IntToString(i);
    var n := if i < 0 then -i else i;
    var d := NatToString(n);
    if i < 0 {
      assert s[1..] == d;
      DigitRunOfDigits(s, 1);
      assert EndAt(s, 0, true) == |s|;
      UnsignedValueOfDigits(d);
    } else {
      DigitRunOfDigits(s, 0);
      assert EndAt(s, 0, true) == |s|;
      UnsignedValueOfDigits(d);
    }
    assert FindAllFrom(s, |s|, true) == [];
  }

  // ---------------------------------------------------------------------------
  // Scanning a concatenation piece by piece.

  /** The matches `ms` moved `d` characters to the right. */
  function Shift(ms: seq<Match>, d: nat): (r: seq<Match>)
    ensures |r| == |ms|
    ensures forall k :: 0 <= k < |ms| ==> r[k] == Match(ms[k].start + d, ms[k].end + d)
  {
    seq(|ms|, k requires 0 <= k < |ms| => Match(ms[k].start + d, ms[k].end + d))
  }

  lemma ShiftCons(m: Match, ms: seq<Match>, d: nat)
    ensures Shift([m] + ms, d) == [Match(m.start + d, m.end + d)] + Shift(ms, d)
  {
    assert ([m] + ms)[1..] == ms;
  }

  lemma ShiftPair(x: Match, y: Match, d: nat)
    ensures Shift([x, y], d) == [Match(x.start + d, x.end + d), Match(y.start + d, y.end + d)]
  {
  }

  lemma ShiftTriple(x: Match, y: Match, z: Match, d: nat)
    ensures Shift([x, y, z], d)
         == [Match(x.start + d, x.end + d), Match(y.start + d, y.end + d), Match(z.start + d, z.end + d)]
  {
  }

  /**
   * No literal can run across the seam between `a` and `b`: one side is
   * empty, `b` does not continue a number, or `a` does not end inside one.
   */
  predicate Separable(a: string, b: string, signed: bool) {
    || a == [] || b == []
    || (!IsDigit(b[0]) && b[0] != '.')
    || (!IsDigit(a[|a| - 1]) && a[|a| - 1] != '.' && !(signed && a[|a| - 1] == '-'))
  }

  lemma {:induction false} DigitRunShift(a: string, b: string, j: nat)
    requires j <= |b|
    ensures DigitRunEnd(a + b, |a| + j) == |a| + DigitRunEnd(b, j)
    decreases |b| - j
  {
    if j < |b| {
      assert (a + b)[|a| + j] == b[j];
      DigitRunShift(a, b, j + 1);
    }
  }

  lemma UnsignedEndShift(a: string, b: string, q: nat)
    requires q < |b| && IsDigit(b[q])
    ensures IsDigit((a + b)[|a| + q])
    ensures UnsignedEnd(a + b, |a| + q) == |a| + UnsignedEnd(b, q)
  {
    assert (a + b)[|a| + q] == b[q];
    DigitRunShift(a, b, q);
    FractionEndShift(a, b, DigitRunEnd(b, q));
  }

  lemma FractionEndShift(a: string, b: string, p: nat)
    requires p <= |b|
    ensures FractionEnd(a + b, |a| + p) == |a| + FractionEnd(b, p)
  {
    var s := a + b;
    if p + 1 < |b| {
      assert s[|a| + p] == b[p] && s[|a| + p + 1] == b[p + 1];
      if b[p] == '.' && IsDigit(b[p + 1]) {
        DigitRunShift(a, b, p + 1);
      }
    }
  }

  lemma StartsAtShift(a: string, b: string, j: nat, signed: bool)
    requires j < |b|
    ensures StartsAt(a + b, |a| + j, signed) <==> StartsAt(b, j, signed)
    ensures StartsAt(b, j, signed) ==> EndAt(a + b, |a| + j, signed) == |a| + EndAt(b, j, signed)
  {
    var s := a + b;
    assert s[|a| + j] == b[j];
    assert j + 1 < |b| ==> s[|a| + j + 1] == b[j + 1];
    if StartsAt(b, j, signed) {
      if IsDigit(b[j]) {
        UnsignedEndShift(a, b, j);
      } else {
        UnsignedEndShift(a, b, j + 1);
      }
    }
  }

  lemma ShiftStepAtStart(a: string, b: string, j: nat, signed: bool)
    requires j < |b| && StartsAt(b, j, signed)
    requires FindAllFrom(a + b, |a| + EndAt(b, j, signed), signed)
          == Shift(FindAllFrom(b, EndAt(b, j, signed), signed), |a|)
    ensures FindAllFrom(a + b, |a| + j, signed) == Shift(FindAllFrom(b, j, signed), |a|)
  {
    ShiftedHead(a, b, j, signed);
    ConcatHead(a, b, j, signed);
  }

  /** The shifted matches of `b` from a literal's start: that literal, shifted, then the rest. */
  lemma ShiftedHead(a: string, b: string, j: nat, signed: bool)
    requires StartsAt(b, j, signed)
    ensures var e := EndAt(b, j, signed);
      Shift(FindAllFrom(b, j, signed), |a|) == [Match(|a| + j, |a| + e)] + Shift(FindAllFrom(b, e, signed), |a|)
  {
    var e := EndAt(b, j, signed);
    AtStartWithEnd(b, j, e, signed);
    ShiftHead(FindAllFrom(b, j, signed), FindAllFrom(b, e, signed), j, e, |a|);
  }

  lemma ShiftHead(ms: seq<Match>, rest: seq<Match>, j: nat, e: nat, d: nat)
    requires ms == [Match(j, e)] + rest
    ensures Shift(ms, d) == [Match(d + j, d + e)] + Shift(rest, d)
  {
    ShiftCons(Match(j, e), rest, d);
  }

  /** The matches of `a + b` from the start of a literal of `b`: that literal, then the rest. */
  lemma ConcatHead(a: string, b: string, j: nat, signed: bool)
    requires StartsAt(b, j, signed)
    ensures var e := EndAt(b, j, signed);
      FindAllFrom(a + b, |a| + j, signed) == [Match(|a| + j, |a| + e)] + FindAllFrom(a + b, |a| + e, signed)
  {
    StartsAtShift(a, b, j, signed);
    AtStartWithEnd(a + b, |a| + j, |a| + EndAt(b, j, signed), signed);
  }

  /** One step of the scanner at a position where a literal starts and ends at `e`. */
  lemma AtStartWithEnd(s: string, i: nat, e: nat, signed: bool)
    requires StartsAt(s, i, signed) && EndAt(s, i, signed) == e
    ensures FindAllFrom(s, i, signed) == [Match(i, e)] + FindAllFrom(s, e, signed)
  {
    FindAllFromAtStart(s, i, signed);
  }

  lemma ShiftStepElsewhere(a: string, b: string, j: nat, signed: bool)
    requires j < |b| && !StartsAt(b, j, signed)
    requires FindAllFrom(a + b, |a| + j + 1, signed) == Shift(FindAllFrom(b, j + 1, signed), |a|)
    ensures FindAllFrom(a + b, |a| + j, signed) == Shift(FindAllFrom(b, j, signed), |a|)
  {
    StartsAtShift(a, b, j, signed);
  }

  lemma {:induction false} FindAllFromShift(a: string, b: string, j: nat, signed: bool)
    requires j <= |b|
    ensures FindAllFrom(a + b, |a| + j, signed) == Shift(FindAllFrom(b, j, signed), |a|)
    decreases |b| - j
  {
    if j == |b| {
      assert |a + b| == |a| + j;
    } else if StartsAt(b, j, signed) {
      FindAllFromShift(a, b, EndAt(b, j, signed), signed);
      ShiftStepAtStart(a, b, j, signed);
    } else {
      FindAllFromShift(a, b, j + 1, signed);
      ShiftStepElsewhere(a, b, j, signed);
    }
  }

  lemma {:induction false} DigitRunPrefix(a: string, b: string, i: nat)
    requires i <= |a|
    requires DigitRunEnd(a, i) < |a| || b == [] || !IsDigit(b[0])
    ensures DigitRunEnd(a + b, i) == DigitRunEnd(a, i)
    decreases |a| - i
  {
    if i < |a| {
      assert (a + b)[i] == a[i];
      if IsDigit(a[i]) {
        DigitRunPrefix(a, b, i + 1);
      }
    } else if b != [] {
      assert (a + b)[i] == b[0];
    }
  }

  /** A digit run that reaches the end of `a` from inside it makes `a` end in a digit. */
  lemma RunToEndEndsInDigit(a: string, q: nat)
    requires q < |a| && DigitRunEnd(a, q) == |a|
    ensures IsDigit(a[|a| - 1])
  {
    assert a[q..|a|][|a| - 1 - q] == a[|a| - 1];
  }

  lemma UnsignedEndPrefix(a: string, b: string, q: nat, signed: bool)
    requires Separable(a, b, signed) && q < |a| && IsDigit(a[q])
    ensures UnsignedEnd(a + b, q) == UnsignedEnd(a, q) <= |a|
  {
    var s := a + b;
    var p := DigitRunEnd(a, q);
    assert DigitRunEnd(s, q) == p by {
      RunPrefix(a, b, q, signed);
    }
    if p + 1 < |a| {
      assert s[p] == a[p] && s[p + 1] == a[p + 1];
      if a[p] == '.' && IsDigit(a[p + 1]) {
        assert DigitRunEnd(s, p + 1) == DigitRunEnd(a, p + 1) by {
          RunPrefix(a, b, p + 1, signed);
        }
      }
    } else if p + 1 == |a| {
      assert s[p] == a[p];
      assert b != [] ==> s[p + 1] == b[0];
    } else if b != [] {
      assert s[p] == b[0];
    }
  }

  /** A digit run starting inside `a` ends at the same place in `a + b` when the two are separable. */
  lemma RunPrefix(a: string, b: string, q: nat, signed: bool)
    requires Separable(a, b, signed) && q < |a| && IsDigit(a[q])
    ensures DigitRunEnd(a + b, q) == DigitRunEnd(a, q)
  {
    if DigitRunEnd(a, q) == |a| {
      RunToEndEndsInDigit(a, q);
    }
    DigitRunPrefix(a, b, q);
  }

  lemma EndAtPrefix(a: string, b: string, i: nat, signed: bool)
    requires Separable(a, b, signed) && i < |a|
    ensures StartsAt(a + b, i, signed) <==> StartsAt(a, i, signed)
    ensures StartsAt(a, i, signed) ==> EndAt(a + b, i, signed) == EndAt(a, i, signed) <= |a|
  {
    var s := a + b;
    assert s[i] == a[i];
    assert i + 1 < |a| ==> s[i + 1] == a[i + 1];
    assert i + 1 == |a| && b != [] ==> s[i + 1] == b[0];
    if StartsAt(a, i, signed) {
      if IsDigit(a[i]) {
        UnsignedEndPrefix(a, b, i, signed);
      } else {
        UnsignedEndPrefix(a, b, i + 1, signed);
      }
    }
  }

  lemma FindAllFromAtStart(s: string, i: nat, signed: bool)
    requires StartsAt(s, i, signed)
    ensures FindAllFrom(s, i, signed) == [Match(i, EndAt(s, i, signed))] + FindAllFrom(s, EndAt(s, i, signed), signed)
  {
  }

  lemma ConsAssoc(m: Match, x: seq<Match>, y: seq<Match>)
    ensures [m] + (x + y) == ([m] + x) + y
  {
  }

  lemma PrefixStepAtStart(a: string, b: string, i: nat, signed: bool)
    requires Separable(a, b, signed) && i < |a| && StartsAt(a, i, signed)
    requires EndAt(a, i, signed) <= |a|
    requires FindAllFrom(a + b, EndAt(a, i, signed), signed)
          == FindAllFrom(a, EndAt(a, i, signed), signed) + Shift(FindAllFrom(b, 0, signed), |a|)
    ensures FindAllFrom(a + b, i, signed) == FindAllFrom(a, i, signed) + Shift(FindAllFrom(b, 0, signed), |a|)
  {
    EndAtPrefix(a, b, i, signed);
    var s := a + b;
    var e := EndAt(a, i, signed);
    assert StartsAt(s, i, signed) && EndAt(s, i, signed) == e;
    var tail := Shift(FindAllFrom(b, 0, signed), |a|);
    var rest := FindAllFrom(a, e, signed);
    FindAllFromAtStart(a, i, signed);
    FindAllFromAtStart(s, i, signed);
    assert FindAllFrom(s, i, signed) == [Match(i, e)] + (rest + tail);
    ConsAssoc(Match(i, e), rest, tail);
  }

  lemma PrefixStepElsewhere(a: string, b: string, i: nat, signed: bool)
    requires Separable(a, b, signed) && i < |a| && !StartsAt(a, i, signed)
    requires FindAllFrom(a + b, i + 1, signed)
          == FindAllFrom(a, i + 1, signed) + Shift(FindAllFrom(b, 0, signed), |a|)
    ensures FindAllFrom(a + b, i, signed) == FindAllFrom(a, i, signed) + Shift(FindAllFrom(b, 0, signed), |a|)
  {
    EndAtPrefix(a, b, i, signed);
  }

  lemma {:induction false} FindAllFromPrefix(a: string, b: string, i: nat, signed: bool)
    requires Separable(a, b, signed) && i <= |a|
    ensures FindAllFrom(a + b, i, signed)
         == FindAllFrom(a, i, signed) + Shift(FindAllFrom(b, 0, signed), |a|)
    decreases |a| - i
  {
    if i == |a| {
      FindAllFromShift(a, b, 0, signed);
    } else if StartsAt(a, i, signed) {
      var e := EndAt(a, i, signed);
      assert e <= |a| by {
        EndAtPrefix(a, b, i, signed);
      }
      FindAllFromPrefix(a, b, e, signed);
      PrefixStepAtStart(a, b, i, signed);
    } else {
      FindAllFromPrefix(a, b, i + 1, signed);
      PrefixStepElsewhere(a, b, i, signed);
    }
  }

  /** The literals of a concatenation are those of its halves when none runs across the seam. */
  lemma FindAllConcat(a: string, b: string, signed: bool)
    requires Separable(a, b, signed)
    ensures FindAll(a + b, signed) == FindAll(a, signed) + Shift(FindAll(b, signed), |a|)
  {
    FindAllFromPrefix(a, b, 0, signed);
  }

  lemma {:induction false} FindAllFromRest(s: string, i: nat, signed: bool)
    requires i <= |s|
    ensures var ms := FindAllFrom(s, i, signed);
      |ms| > 0 ==> ms[1..] == FindAllFrom(s, ms[0].end, signed)
    decreases |s| - i
  {
    if i < |s| {
      if StartsAt(s, i, signed) {
        FindAllFromAtStart(s, i, signed);
        var e := EndAt(s, i, signed);
        assert ([Match(i, e)] + FindAllFrom(s, e, signed))[1..] == FindAllFrom(s, e, signed);
      } else {
        FindAllFromRest(s, i + 1, signed);
      }
    }
  }

  /** After the first match, `re.findall` carries on from where that match ended. */
  lemma FindAllTail(s: string, signed: bool)
    ensures var ms := FindAll(s, signed);
      |ms| > 0 ==> ms[1..] == FindAllFrom(s, ms[0].end, signed)
  {
    FindAllFromRest(s, 0, signed);
  }

  /** Scanning from the middle of a string is scanning its tail. */
  lemma FindAllFromIsFindAllOfTail(s: string, i: nat, signed: bool)
    requires i <= |s|
    ensures FindAllFrom(s, i, signed) == Shift(FindAll(s[i..], signed), i)
  {
    assert s == s[..i] + s[i..];
    FindAllFromShift(s[..i], s[i..], 0, signed);
  }

  /** A string without digits holds no literal. */
  lemma {:induction false} NoDigitsNoLiterals(s: string, i: nat, signed: bool)
    requires i <= |s|
    requires forall k | 0 <= k < |s| :: !IsDigit(s[k])
    ensures FindAllFrom(s, i, signed) == []
    decreases |s| - i
  {
    if i < |s| {
      NoDigitsNoLiterals(s, i + 1, signed);
    }
  }

  lemma MatchTextOfPrefix(a: string, b: string, m: Match)
    requires m.start <= m.end <= |a|
    ensures MatchText(a + b, m) == MatchText(a, m)
  {
  }

  lemma MatchTextOfShift(a: string, b: string, m: Match)
    requires m.start <= m.end <= |b|
    ensures MatchText(a + b, Match(m.start + |a|, m.end + |a|)) == MatchText(b, m)
  {
  }
}
