/**
 * Number and unit masking around machine translation. `RANGE_PATTERN` and
 * then `VALUE_PATTERN` are substituted by `__VAL_i__` placeholders, each
 * recording the text it hid; unmasking replaces the placeholders back in
 * the order they were created.
 */
module Masking {
  import opened Wrappers
  import opened Text
  import opened Decimals

  // ---------------------------------------------------------------------------
  // Character classes.

  /** `[-–]`: hyphen-minus or en dash. */
  predicate IsDash(c: char) {
    c == '-' || c == '\U{2013}'
  }

  /** `[a-zA-Z/%]`: a character of a unit. */
  predicate IsUnitChar(c: char) {
    IsAsciiLetter(c) || c == '/' || c == '%'
  }

  /** A character one of the two patterns can consume. */
  predicate IsPatternChar(c: char) {
    IsDigit(c) || c == '.' || IsSpace(c) || IsDash(c) || IsUnitChar(c)
  }

  predicate AllPatternChars(s: string) {
    forall k :: 0 <= k < |s| ==> IsPatternChar(s[k])
  }

  predicate NoUnderscore(s: string) {
    forall k :: 0 <= k < |s| ==> s[k] != '_'
  }

  lemma PatternCharsHaveNoUnderscore(s: string)
    requires AllPatternChars(s)
    ensures NoUnderscore(s)
  {
  }

  datatype CharClass = Digits | Spaces | Units

  predicate InClass(k: CharClass, c: char) {
    match k
    case Digits => IsDigit(c)
    case Spaces => IsSpace(c)
    case Units => IsUnitChar(c)
  }

  /** End of the maximal run of class `k` from `i`: what a greedy repetition consumes. */
  function RunEnd(s: string, i: nat, k: CharClass): (j: nat)
    requires i <= |s|
    ensures i <= j <= |s|
    ensures forall q | i <= q < j :: InClass(k, s[q])
    ensures j == |s| || !InClass(k, s[j])
    decreases |s| - i
  {
    if i < |s| && InClass(k, s[i]) then RunEnd(s, i + 1, k) else i
  }

  /** A word character at index `i`; positions outside the text count as non-word. */
  predicate WordAt(s: string, i: int) {
    0 <= i < |s| && IsWordChar(s[i])
  }

  /** `\b` at position `p`. */
  predicate Boundary(s: string, p: int) {
    WordAt(s, p - 1) != WordAt(s, p)
  }

  // ---------------------------------------------------------------------------
  // The two patterns.

  /** `\d+(\.\d+)?` from a digit at `i`: the digit run, then a fraction when a digit follows the point. */
  function NumberEnd(s: string, i: nat): (j: nat)
    requires i < |s| && IsDigit(s[i])
    ensures i < j <= |s|
    ensures forall q | i <= q < j :: IsDigit(s[q]) || s[q] == '.'
  {
    var d := RunEnd(s, i, Digits);
    if d + 1 < |s| && s[d] == '.' && IsDigit(s[d + 1]) then RunEnd(s, d + 1, Digits) else d
  }

  /**
   * `\b(\d+(\.\d+)?)\s*[-–]\s*(\d+(\.\d+)?)(\s*[a-zA-Z/%]+)?` at `p`. Each
   * repetition is followed by something its own characters cannot start, so
   * backtracking never finds a second way: the greedy reading is the match.
   */
  function RangeEnd(s: string, p: nat): Option<nat>
    requires p <= |s|
  {
    if p < |s| && IsDigit(s[p]) && Boundary(s, p) then
      var a := NumberEnd(s, p);
      var b := RunEnd(s, a, Spaces);
      if b < |s| && IsDash(s[b]) then RangeTail(s, b) else None
    else None
  }

  /** After the dash at `b`: blanks, the second number, and blanks and a unit if a unit follows. */
  function RangeTail(s: string, b: nat): Option<nat>
    requires b < |s|
  {
    var c := RunEnd(s, b + 1, Spaces);
    if c < |s| && IsDigit(s[c]) then
      var d := NumberEnd(s, c);
      var u := RunEnd(s, d, Spaces);
      if u < |s| && IsUnitChar(s[u]) then Some(RunEnd(s, u, Units)) else Some(d)
    else None
  }

  /** The largest end in `(lo, hi]` at which `\b` holds: `[a-zA-Z/%]+\b` giving back characters. */
  function LastBoundary(s: string, lo: nat, hi: nat): (r: Option<nat>)
    requires lo <= hi <= |s|
    ensures r.Some? ==> lo < r.value <= hi && Boundary(s, r.value)
    ensures r.Some? ==> forall e | r.value < e <= hi :: !Boundary(s, e)
    ensures r.None? ==> forall e | lo < e <= hi :: !Boundary(s, e)
    decreases hi
  {
    if hi <= lo then None
    else if Boundary(s, hi) then Some(hi)
    else LastBoundary(s, lo, hi - 1)
  }

  /**
   * `\b(\d+(\.\d+)?)(\s*[a-zA-Z/%]+)\b` at `p`. The number and the blank run
   * are forced as in `RangeEnd`; only the unit gives back characters until a
   * word boundary follows it.
   */
  function ValueEnd(s: string, p: nat): Option<nat>
    requires p <= |s|
  {
    if p < |s| && IsDigit(s[p]) && Boundary(s, p) then
      var a := NumberEnd(s, p);
      var u := RunEnd(s, a, Spaces);
      if u < |s| && IsUnitChar(s[u]) then LastBoundary(s, u, RunEnd(s, u, Units))
      else None
    else None
  }

  datatype Pattern = RangePattern | ValuePattern

  /**
   * Where the pattern's match at `p` ends, if it matches there. A match
   * starts with a digit at a word boundary and consists of pattern characters.
   */
  function MatchEnd(pat: Pattern, s: string, p: nat): (r: Option<nat>)
    requires p <= |s|
    ensures r.Some? ==> p < r.value <= |s| && IsDigit(s[p]) && Boundary(s, p)
    ensures r.Some? ==> AllPatternChars(s[p..r.value])
  {
    match pat
    case RangePattern => RangeEndShape(s, p); RangeEnd(s, p)
    case ValuePattern => ValueEndShape(s, p); ValueEnd(s, p)
  }

  /** Every character of `s[p..e]` is one the patterns can consume. */
  predicate PatternSpan(s: string, p: nat, e: nat)
    requires p <= e <= |s|
  {
    forall q | p <= q < e :: IsPatternChar(s[q])
  }

  lemma {:induction false} SpanSlice(s: string, p: nat, e: nat)
    requires p <= e <= |s| && PatternSpan(s, p, e)
    ensures AllPatternChars(s[p..e])
  {
    forall k | 0 <= k < e - p
      ensures IsPatternChar(s[p..e][k])
    {
      assert s[p..e][k] == s[p + k];
    }
  }

  lemma SpanJoin(s: string, a: nat, b: nat, c: nat)
    requires a <= b <= c <= |s| && PatternSpan(s, a, b) && PatternSpan(s, b, c)
    ensures PatternSpan(s, a, c)
  {
  }

  lemma SpanShrink(s: string, a: nat, b: nat, c: nat)
    requires a <= b <= c <= |s| && PatternSpan(s, a, c)
    ensures PatternSpan(s, a, b)
  {
  }

  lemma RunSpan(s: string, i: nat, k: CharClass)
    requires i <= |s|
    ensures PatternSpan(s, i, RunEnd(s, i, k))
  {
  }

  lemma NumberSpan(s: string, i: nat)
    requires i < |s| && IsDigit(s[i])
    ensures PatternSpan(s, i, NumberEnd(s, i))
  {
  }

  /** The number, blanks and unit that follow a dash at `b` are pattern characters up to the range's end. */
  lemma {:induction false} RangeTailShape(s: string, p: nat, b: nat)
    requires p < b < |s| && IsDash(s[b]) && PatternSpan(s, p, b)
    ensures var r := RangeTail(s, b); r.Some? ==> b < r.value <= |s| && PatternSpan(s, p, r.value)
  {
    var c := RunEnd(s, b + 1, Spaces);
    assert PatternSpan(s, b, b + 1);
    RunSpan(s, b + 1, Spaces);
    SpanJoin(s, p, b, b + 1);
    SpanJoin(s, p, b + 1, c);
    if c < |s| && IsDigit(s[c]) {
      var d := NumberEnd(s, c);
      NumberSpan(s, c);
      SpanJoin(s, p, c, d);
      var u := RunEnd(s, d, Spaces);
      RunSpan(s, d, Spaces);
      SpanJoin(s, p, d, u);
      if u < |s| && IsUnitChar(s[u]) {
        RunSpan(s, u, Units);
        SpanJoin(s, p, u, RunEnd(s, u, Units));
      }
    }
  }

  lemma {:induction false} RangeEndShape(s: string, p: nat)
    requires p <= |s|
    ensures var r := RangeEnd(s, p);
      r.Some? ==> p < r.value <= |s| && IsDigit(s[p]) && Boundary(s, p) && AllPatternChars(s[p..r.value])
  {
    if p < |s| && IsDigit(s[p]) && Boundary(s, p) {
      var a := NumberEnd(s, p);
      var b := RunEnd(s, a, Spaces);
      NumberSpan(s, p);
      RunSpan(s, a, Spaces);
      SpanJoin(s, p, a, b);
      if b < |s| && IsDash(s[b]) {
        RangeTailShape(s, p, b);
        var r := RangeTail(s, b);
        if r.Some? {
          SpanSlice(s, p, r.value);
        }
      }
    }
  }

  lemma {:induction false} ValueEndShape(s: string, p: nat)
    requires p <= |s|
    ensures var r := ValueEnd(s, p);
      r.Some? ==> p < r.value <= |s| && IsDigit(s[p]) && Boundary(s, p) && AllPatternChars(s[p..r.value])
  {
    if p < |s| && IsDigit(s[p]) && Boundary(s, p) {
      var a := NumberEnd(s, p);
      var u := RunEnd(s, a, Spaces);
      if u < |s| && IsUnitChar(s[u]) {
        var v := RunEnd(s, u, Units);
        NumberSpan(s, p);
        RunSpan(s, a, Spaces);
        RunSpan(s, u, Units);
        SpanJoin(s, p, a, u);
        SpanJoin(s, p, u, v);
        var r := LastBoundary(s, u, v);
        if r.Some? {
          SpanShrink(s, p, r.value, v);
          SpanSlice(s, p, r.value);
        }
      }
    }
  }

  // ---------------------------------------------------------------------------
  // Masking and unmasking.

  /** The placeholder `__VAL_i__`. */
  function Placeholder(i: nat): string {
    "__VAL_" + NatToString(i) + "__"
  }

  /** A masked text and the texts its placeholders stand for, entry `i` under `Placeholder(i)`. */
  datatype Masked = Masked(text: string, masks: seq<string>)

  /**
   * `pat.sub(_repl, s)` from index `i`, with `masks` recorded so far: each
   * match becomes the next placeholder and its text the next entry.
   */
  function SubFrom(pat: Pattern, s: string, i: nat, masks: seq<string>): (r: Masked)
    requires i <= |s|
    ensures |masks| <= |r.masks| && r.masks[..|masks|] == masks
    decreases |s| - i
  {
    if i == |s| then Masked([], masks)
    else
      match MatchEnd(pat, s, i)
      case Some(e) =>
        var rest := SubFrom(pat, s, e, masks + [s[i..e]]);
        assert (masks + [s[i..e]])[..|masks|] == masks;
        Masked(Placeholder(|masks|) + rest.text, rest.masks)
      case None =>
        var rest := SubFrom(pat, s, i + 1, masks);
        Masked([s[i]] + rest.text, rest.masks)
  }

  /** A recorded entry is a whole match: a digit first, then pattern characters only. */
  predicate IsEntry(m: string) {
    m != [] && IsDigit(m[0]) && AllPatternChars(m)
  }

  ghost predicate EntriesFrom(ms: seq<string>, from: nat) {
    forall k | from <= k < |ms| :: IsEntry(ms[k])
  }

  /** Every entry a substitution records is a whole match. */
  lemma {:induction false} SubFromEntries(pat: Pattern, s: string, i: nat, masks: seq<string>)
    requires i <= |s|
    ensures EntriesFrom(SubFrom(pat, s, i, masks).masks, |masks|)
    decreases |s| - i
  {
    if i < |s| {
      match MatchEnd(pat, s, i)
      case Some(e) =>
        var more := masks + [s[i..e]];
        SubFromEntries(pat, s, e, more);
        SubFromMatch(pat, s, i, e, masks);
        SubFromEntriesStep(SubFrom(pat, s, i, masks).masks, masks, s[i..e]);
      case None =>
        SubFromEntries(pat, s, i + 1, masks);
        SubFromCopy(pat, s, i, masks);
    }
  }

  lemma SubFromEntriesStep(ms: seq<string>, masks: seq<string>, m: string)
    requires |masks| < |ms| && ms[..|masks| + 1] == masks + [m]
    requires IsEntry(m) && EntriesFrom(ms, |masks| + 1)
    ensures EntriesFrom(ms, |masks|)
  {
    assert ms[|masks|] == (masks + [m])[|masks|];
  }

  /** `mask_numbers_and_units`: ranges first, then single values on the range-masked text. */
  function Mask(t: string): Masked {
    var ranges := SubFrom(RangePattern, t, 0, []);
    SubFrom(ValuePattern, ranges.text, 0, ranges.masks)
  }

  /** `unmask_numbers_and_units` from entry `i` on: each placeholder replaced in turn. */
  function UnmaskFrom(text: string, masks: seq<string>, i: nat): string
    requires i <= |masks|
    decreases |masks| - i
  {
    if i == |masks| then text
    else UnmaskFrom(Replace(text, Placeholder(i), masks[i]), masks, i + 1)
  }

  function Unmask(text: string, masks: seq<string>): string {
    UnmaskFrom(text, masks, 0)
  }

  // ---------------------------------------------------------------------------
  // Placeholders.

  lemma PlaceholderShape(i: nat)
    ensures var p := Placeholder(i); var d := NatToString(i);
      && |p| == |d| + 8
      && p[..6] == "__VAL_" && p[6..|p| - 2] == d && p[|p| - 2..] == "__"
      && (forall k | 0 <= k < |p| :: IsWordChar(p[k]))
      && (forall k | 0 <= k < |p| :: p[k] == '_' <==> (k < 2 || k == 5 || k >= |p| - 2))
      && (forall k | 0 <= k < |p| :: IsDigit(p[k]) <==> 6 <= k < |p| - 2)
  {
    var p := Placeholder(i);
    var d := NatToString(i);
    assert forall k | 6 <= k < |p| - 2 :: p[k] == d[k - 6];
  }

  lemma PrefixCharAt(s: string, q: string, k: int)
    ensures HasPrefix(s, q) && 0 <= k < |q| ==> s[k] == q[k]
  {
    if HasPrefix(s, q) && 0 <= k < |q| {
      assert s[..|q|][k] == s[k];
    }
  }

  /** A placeholder can start inside another one only where the two coincide. */
  lemma PlaceholderAtStart(i: nat, j: nat, r: string)
    requires HasPrefix(Placeholder(i) + r, Placeholder(j))
    ensures i == j
  {
    var p, q := Placeholder(i), Placeholder(j);
    var di, dj := NatToString(i), NatToString(j);
    PlaceholderShape(i);
    PlaceholderShape(j);
    assert (p + r)[..|q|] == q;
    if |dj| < |di| {
      PrefixCharAt(p + r, q, 6 + |dj|);
    } else if |dj| > |di| {
      PrefixCharAt(p + r, q, 6 + |di|);
    } else {
      assert p == q;
      assert di == p[6..|p| - 2];
      NatToStringInjective(i, j);
    }
  }

  /** What may follow a placeholder without a second placeholder straddling the seam. */
  predicate SafeAfterPlaceholder(r: string) {
    && !(|r| >= 2 && r[0] == '_' && r[1] == 'V')
    && !(|r| >= 5 && r[3] == '_' && IsDigit(r[4]))
  }

  lemma PlaceholderInside(i: nat, j: nat, r: string, k: nat)
    requires 1 <= k < |Placeholder(i)|
    requires SafeAfterPlaceholder(r)
    ensures !HasPrefix((Placeholder(i) + r)[k..], Placeholder(j))
  {
    var p, q := Placeholder(i), Placeholder(j);
    PlaceholderShape(i);
    PlaceholderShape(j);
    var w := (p + r)[k..];
    var t := if k == |p| - 2 then 5 else if k == |p| - 1 then 1 else 0;
    PrefixCharAt(w, q, t);
    PrefixCharAt(w, q, t + 1);
    SliceCharAt(p, r, k, t);
    SliceCharAt(p, r, k, t + 1);
  }

  lemma SliceCharAt(p: string, r: string, k: nat, t: nat)
    ensures k + t < |p + r| ==> (p + r)[k..][t] == if k + t < |p| then p[k + t] else r[k + t - |p|]
  {
  }

  /** `s.replace(key, v)` copies a prefix in which no occurrence of `key` starts. */
  lemma {:induction false} ReplaceSkip(s: string, key: string, v: string, n: nat)
    requires key != [] && n <= |s|
    requires forall k | 0 <= k < n :: !HasPrefix(s[k..], key)
    ensures Replace(s, key, v) == s[..n] + Replace(s[n..], key, v)
    decreases n
  {
    if n > 0 {
      assert !HasPrefix(s[0..], key);
      assert forall k | 0 <= k < n - 1 :: s[1..][k..] == s[k + 1..];
      ReplaceSkip(s[1..], key, v, n - 1);
      assert s[1..][n - 1..] == s[n..];
      assert [s[0]] + s[1..][..n - 1] == s[..n];
    }
  }

  lemma ReplaceSkipsPlaceholder(i: nat, j: nat, r: string, v: string)
    requires i != j && SafeAfterPlaceholder(r)
    ensures Replace(Placeholder(i) + r, Placeholder(j), v) == Placeholder(i) + Replace(r, Placeholder(j), v)
  {
    var p := Placeholder(i);
    forall k | 0 <= k < |p| ensures !HasPrefix((p + r)[k..], Placeholder(j)) {
      if k == 0 {
        if HasPrefix(p + r, Placeholder(j)) {
          PlaceholderAtStart(i, j, r);
        }
      } else {
        PlaceholderInside(i, j, r, k);
      }
    }
    ReplaceSkip(p + r, Placeholder(j), v, |p|);
    assert (p + r)[..|p|] == p && (p + r)[|p|..] == r;
  }

  // ---------------------------------------------------------------------------
  // A masked text read as plain characters and placeholders.

  datatype Token = Plain(c: char) | Slot(n: nat)

  function TokenText(t: Token): string {
    match t
    case Plain(c) => [c]
    case Slot(n) => Placeholder(n)
  }

  /** The text the tokens spell, placeholders written out. */
  function Render(ts: seq<Token>): string
    decreases |ts|
  {
    if ts == [] then [] else TokenText(ts[0]) + Render(ts[1..])
  }

  predicate SlotsWithin(ts: seq<Token>, lo: nat, hi: nat) {
    forall k :: 0 <= k < |ts| && ts[k].Slot? ==> lo <= ts[k].n < hi
  }

  predicate PlainClean(ts: seq<Token>) {
    forall k :: 0 <= k < |ts| && ts[k].Plain? ==> ts[k].c != '_'
  }

  function FillToken(t: Token, masks: seq<string>): string
    requires t.Slot? ==> t.n < |masks|
  {
    match t
    case Plain(c) => [c]
    case Slot(n) => masks[n]
  }

  /** The text the tokens stand for, each placeholder replaced by its entry. */
  function Fill(ts: seq<Token>, masks: seq<string>): string
    requires SlotsWithin(ts, 0, |masks|)
    decreases |ts|
  {
    if ts == [] then [] else FillToken(ts[0], masks) + Fill(ts[1..], masks)
  }

  function Plains(s: string): (ts: seq<Token>)
    ensures |ts| == |s| && forall k :: 0 <= k < |s| ==> ts[k] == Plain(s[k])
  {
    seq(|s|, k requires 0 <= k < |s| => Plain(s[k]))
  }

  lemma {:induction false} RenderConcat(a: seq<Token>, b: seq<Token>)
    ensures Render(a + b) == Render(a) + Render(b)
    decreases |a|
  {
    if a != [] {
      RenderConcat(a[1..], b);
      RenderConcatStep(a, b);
    } else {
      assert a + b == b;
    }
  }

  lemma RenderConcatStep(a: seq<Token>, b: seq<Token>)
    requires a != [] && Render(a[1..] + b) == Render(a[1..]) + Render(b)
    ensures Render(a + b) == Render(a) + Render(b)
  {
    RenderCons(a, b);
    AppendAssoc(TokenText(a[0]), Render(a[1..]), Render(b));
  }

  lemma RenderCons(a: seq<Token>, b: seq<Token>)
    requires a != []
    ensures Render(a + b) == TokenText(a[0]) + Render(a[1..] + b)
  {
    assert (a + b)[0] == a[0] && (a + b)[1..] == a[1..] + b;
  }

  lemma {:induction false} FillConcat(a: seq<Token>, b: seq<Token>, masks: seq<string>)
    requires SlotsWithin(a, 0, |masks|) && SlotsWithin(b, 0, |masks|)
    ensures SlotsWithin(a + b, 0, |masks|)
    ensures Fill(a + b, masks) == Fill(a, masks) + Fill(b, masks)
    decreases |a|
  {
    if a != [] {
      assert (a + b)[0] == a[0] && (a + b)[1..] == a[1..] + b;
      FillConcat(a[1..], b, masks);
    } else {
      assert a + b == b;
    }
  }

  lemma {:induction false} PlainsSpell(s: string, masks: seq<string>)
    ensures SlotsWithin(Plains(s), 0, |masks|)
    ensures Render(Plains(s)) == s && Fill(Plains(s), masks) == s
    decreases |s|
  {
    if s != [] {
      assert Plains(s)[1..] == Plains(s[1..]);
      PlainsSpell(s[1..], masks);
    }
  }

  /** Entries standing for placeholders beyond the ones used change nothing. */
  lemma {:induction false} FillExtend(ts: seq<Token>, masks: seq<string>, more: seq<string>)
    requires SlotsWithin(ts, 0, |masks|) && |masks| <= |more| && more[..|masks|] == masks
    ensures SlotsWithin(ts, 0, |more|) && Fill(ts, more) == Fill(ts, masks)
    decreases |ts|
  {
    if ts != [] {
      if ts[0].Slot? {
        assert more[..|masks|][ts[0].n] == more[ts[0].n];
      }
      FillExtend(ts[1..], masks, more);
    }
  }

  /** Only slots with no entry left to replace them: the text is already the filled one. */
  lemma {:induction false} FillWithoutSlots(ts: seq<Token>, masks: seq<string>)
    requires SlotsWithin(ts, |masks|, |masks|)
    ensures SlotsWithin(ts, 0, |masks|) && Render(ts) == Fill(ts, masks)
    decreases |ts|
  {
    if ts != [] {
      FillWithoutSlots(ts[1..], masks);
    }
  }

  /** In a rendered text an underscore followed by a digit sits at index 5 or later. */
  lemma {:induction false} UnderscoreDigitLate(ts: seq<Token>, q: nat)
    requires PlainClean(ts)
    requires q + 1 < |Render(ts)| && Render(ts)[q] == '_' && IsDigit(Render(ts)[q + 1])
    ensures q >= 5
    decreases |ts|
  {
    var head, rest := TokenText(ts[0]), Render(ts[1..]);
    assert Render(ts) == head + rest;
    match ts[0]
    case Plain(c) =>
      assert Render(ts)[0] == c;
      if q > 0 {
        assert rest[q - 1] == Render(ts)[q] && rest[q] == Render(ts)[q + 1];
        UnderscoreDigitLate(ts[1..], q - 1);
      }
    case Slot(n) =>
      PlaceholderShape(n);
      SliceCharAt(head, rest, 0, q);
      SliceCharAt(head, rest, 0, q + 1);
  }

  lemma RenderSafe(ts: seq<Token>)
    requires PlainClean(ts)
    ensures SafeAfterPlaceholder(Render(ts))
  {
    var r := Render(ts);
    if |r| >= 2 && r[0] == '_' {
      assert r == TokenText(ts[0]) + Render(ts[1..]);
      if ts[0].Slot? {
        PlaceholderShape(ts[0].n);
        assert r[1] == Placeholder(ts[0].n)[1];
      }
    }
    if |r| >= 5 && r[3] == '_' && IsDigit(r[4]) {
      UnderscoreDigitLate(ts, 3);
    }
  }

  /** The tokens with every `Slot(j)` written out as the plain characters of `v`. */
  function Substitute(ts: seq<Token>, j: nat, v: string): seq<Token>
    decreases |ts|
  {
    if ts == [] then [] else (if ts[0] == Slot(j) then Plains(v) else [ts[0]]) + Substitute(ts[1..], j, v)
  }

  /** Replacing one placeholder in a rendered text substitutes exactly its slots. */
  lemma {:induction false} ReplaceRender(ts: seq<Token>, j: nat, v: string)
    requires PlainClean(ts) && NoUnderscore(v)
    ensures Replace(Render(ts), Placeholder(j), v) == Render(Substitute(ts, j, v))
    decreases |ts|
  {
    if ts != [] {
      var r := Render(ts[1..]);
      var key := Placeholder(j);
      ReplaceRender(ts[1..], j, v);
      var head := if ts[0] == Slot(j) then Plains(v) else [ts[0]];
      RenderConcat(head, Substitute(ts[1..], j, v));
      PlaceholderShape(j);
      match ts[0]
      case Plain(c) =>
        assert ([c] + r)[1..] == r;
        assert !HasPrefix([c] + r, key) by {
          assert ([c] + r)[0] == c && key[0] == '_';
        }
        assert Render([Plain(c)]) == [c];
      case Slot(n) =>
        if n == j {
          assert HasPrefix(key + r, key) && (key + r)[|key|..] == r;
          PlainsSpell(v, []);
        } else {
          RenderSafe(ts[1..]);
          ReplaceSkipsPlaceholder(n, j, r, v);
          assert Render([Slot(n)]) == Placeholder(n);
        }
    }
  }

  lemma {:induction false} SubstituteKeeps(ts: seq<Token>, j: nat, masks: seq<string>)
    requires j < |masks| && SlotsWithin(ts, j, |masks|) && PlainClean(ts) && NoUnderscore(masks[j])
    ensures SlotsWithin(Substitute(ts, j, masks[j]), j + 1, |masks|)
    ensures PlainClean(Substitute(ts, j, masks[j]))
    ensures Fill(Substitute(ts, j, masks[j]), masks) == Fill(ts, masks)
    decreases |ts|
  {
    if ts != [] {
      var v := masks[j];
      var head := if ts[0] == Slot(j) then Plains(v) else [ts[0]];
      HeadAndRest(ts, j, |masks|);
      SubstituteKeeps(ts[1..], j, masks);
      SubstituteHead(ts[0], j, masks);
      SlotsWithinConcat(head, Substitute(ts[1..], j, v), j + 1, |masks|);
      PlainCleanConcat(head, Substitute(ts[1..], j, v));
      FillConcat(head, Substitute(ts[1..], j, v), masks);
      FillHead(ts, masks);
    }
  }

  lemma HeadAndRest(ts: seq<Token>, lo: nat, hi: nat)
    requires ts != [] && SlotsWithin(ts, lo, hi) && PlainClean(ts)
    ensures (ts[0].Slot? ==> lo <= ts[0].n < hi) && (ts[0].Plain? ==> ts[0].c != '_')
    ensures SlotsWithin(ts[1..], lo, hi) && PlainClean(ts[1..]) && SlotsWithin(ts, 0, hi)
  {
    assert forall k | 0 <= k < |ts| - 1 :: ts[1..][k] == ts[k + 1];
  }

  /** The tokens one token becomes when the placeholder `j` is substituted. */
  lemma {:induction false} SubstituteHead(t: Token, j: nat, masks: seq<string>)
    requires j < |masks| && (t.Slot? ==> j <= t.n < |masks|) && (t.Plain? ==> t.c != '_')
    requires NoUnderscore(masks[j])
    ensures var head := if t == Slot(j) then Plains(masks[j]) else [t];
      && SlotsWithin(head, j + 1, |masks|) && PlainClean(head)
      && SlotsWithin(head, 0, |masks|) && Fill(head, masks) == FillToken(t, masks)
  {
    if t == Slot(j) {
      PlainsSpell(masks[j], masks);
      PlainsClean(masks[j]);
    } else {
      assert [t][1..] == [];
    }
  }

  lemma SlotsWithinConcat(a: seq<Token>, b: seq<Token>, lo: nat, hi: nat)
    requires SlotsWithin(a, lo, hi) && SlotsWithin(b, lo, hi)
    ensures SlotsWithin(a + b, lo, hi)
  {
    forall k | 0 <= k < |a + b| && (a + b)[k].Slot? ensures lo <= (a + b)[k].n < hi {
      if k >= |a| {
        assert (a + b)[k] == b[k - |a|];
      }
    }
  }

  /** Unmasking a rendered text, entries from `i` on, fills in every slot. */
  lemma {:induction false} UnmaskFills(ts: seq<Token>, masks: seq<string>, i: nat)
    requires i <= |masks| && SlotsWithin(ts, i, |masks|) && PlainClean(ts)
    requires forall k | i <= k < |masks| :: NoUnderscore(masks[k])
    ensures SlotsWithin(ts, 0, |masks|)
    ensures UnmaskFrom(Render(ts), masks, i) == Fill(ts, masks)
    decreases |masks| - i
  {
    if i == |masks| {
      FillWithoutSlots(ts, masks);
    } else {
      ReplaceRender(ts, i, masks[i]);
      SubstituteKeeps(ts, i, masks);
      UnmaskFills(Substitute(ts, i, masks[i]), masks, i + 1);
    }
  }

  // ---------------------------------------------------------------------------
  // The two substitutions, read as tokens.

  /** `out` is a token reading of the masked text `r`, and it fills back to `filled`. */
  predicate Spells(r: Masked, out: seq<Token>, filled: string) {
    && Render(out) == r.text && PlainClean(out)
    && SlotsWithin(out, 0, |r.masks|) && Fill(out, r.masks) == filled
  }

  /**
   * A prefix of a rendered text without underscores is spelled by plain
   * tokens: dropping them leaves the rest of the text, and they fill to the prefix.
   */
  lemma {:induction false} PlainPrefix(ts: seq<Token>, w: string, masks: seq<string>)
    requires HasPrefix(Render(ts), w) && NoUnderscore(w) && SlotsWithin(ts, 0, |masks|)
    ensures |w| <= |ts| && Render(ts[|w|..]) == Render(ts)[|w|..]
    ensures SlotsWithin(ts[|w|..], 0, |masks|) && Fill(ts, masks) == w + Fill(ts[|w|..], masks)
    decreases |w|
  {
    if w != [] {
      HeadIsPlain(ts, w);
      PlainPrefixStep(ts, w);
      FillHead(ts, masks);
      PlainPrefix(ts[1..], w[1..], masks);
      assert ts[1..][|w| - 1..] == ts[|w|..];
      ConsPrefixFill(w, Fill(ts[1..], masks), Fill(ts[|w|..], masks));
    }
  }

  /** The first character of a prefix that is not an underscore comes from a plain token. */
  lemma {:induction false} HeadIsPlain(ts: seq<Token>, w: string)
    requires HasPrefix(Render(ts), w) && w != [] && w[0] != '_'
    ensures ts != [] && ts[0] == Plain(w[0])
  {
    var head, rest := TokenText(ts[0]), Render(ts[1..]);
    assert Render(ts) == head + rest;
    assert Render(ts)[0] == w[0];
    SliceCharAt(head, rest, 0, 0);
    if ts[0].Slot? {
      PlaceholderShape(ts[0].n);
    }
  }

  lemma {:induction false} PlainPrefixStep(ts: seq<Token>, w: string)
    requires w != [] && ts != [] && ts[0] == Plain(w[0])
    requires HasPrefix(Render(ts), w)
    ensures HasPrefix(Render(ts[1..]), w[1..])
    ensures Render(ts)[|w|..] == Render(ts[1..])[|w| - 1..]
  {
    assert Render(ts) == [w[0]] + Render(ts[1..]);
    ConsPrefix(w[0], Render(ts[1..]), w);
  }

  lemma {:induction false} ConsPrefix(c: char, rest: string, w: string)
    requires w != [] && HasPrefix([c] + rest, w)
    ensures HasPrefix(rest, w[1..]) && ([c] + rest)[|w|..] == rest[|w| - 1..]
  {
    assert ([c] + rest)[1..] == rest;
    assert ([c] + rest)[..|w|][1..] == rest[..|w| - 1];
  }

  lemma {:induction false} ConsPrefixFill(w: string, x: string, y: string)
    requires w != [] && x == w[1..] + y
    ensures [w[0]] + x == w + y
  {
    assert [w[0]] + w[1..] == w;
  }

  /**
   * No match of either pattern starts inside a placeholder: a match starts
   * with a digit at a word boundary, and the placeholder's digits follow word characters.
   */
  lemma {:induction false} PlaceholderNotRematched(s: string, i: nat, n: nat, q: nat)
    requires OccursAt(s, Placeholder(n), i) && i <= q < i + |Placeholder(n)|
    ensures !(IsDigit(s[q]) && Boundary(s, q))
  {
    var p := Placeholder(n);
    PlaceholderShape(n);
    OccursAtChar(s, p, i, q - i);
    OccursAtChar(s, p, i, q - i - 1);
  }

  /** A substitution copies the rest of a placeholder, which ends at `j`, from `q` on. */
  lemma {:induction false} SubFromInPlaceholder(pat: Pattern, s: string, i: nat, n: nat, j: nat, q: nat, masks: seq<string>)
    requires OccursAt(s, Placeholder(n), i) && j == i + |Placeholder(n)| && i <= q <= j
    ensures SubFrom(pat, s, q, masks) == Masked(s[q..j] + SubFrom(pat, s, j, masks).text, SubFrom(pat, s, j, masks).masks)
    decreases j - q, 1
  {
    if q < j {
      SubFromCopiesPlaceholder(pat, s, i, n, j, q, masks);
    } else {
      CopyNothing(SubFrom(pat, s, q, masks), SubFrom(pat, s, j, masks), s, q, j);
    }
  }

  lemma {:induction false} SubFromCopiesPlaceholder(pat: Pattern, s: string, i: nat, n: nat, j: nat, q: nat, masks: seq<string>)
    requires OccursAt(s, Placeholder(n), i) && j == i + |Placeholder(n)| && i <= q < j
    ensures SubFrom(pat, s, q, masks) == Masked(s[q..j] + SubFrom(pat, s, j, masks).text, SubFrom(pat, s, j, masks).masks)
    decreases j - q, 0
  {
    SubFromPlaceholderStep(pat, s, i, n, q, masks);
    SubFromInPlaceholder(pat, s, i, n, j, q + 1, masks);
    CopyCons(SubFrom(pat, s, q, masks), SubFrom(pat, s, q + 1, masks), SubFrom(pat, s, j, masks), s, q, j);
  }

  lemma {:induction false} CopyNothing(a: Masked, c: Masked, s: string, q: nat, j: nat)
    requires q == j <= |s| && a == c
    ensures a == Masked(s[q..j] + c.text, c.masks)
  {
    assert s[q..j] + c.text == c.text;
  }

  lemma {:induction false} SubFromPlaceholderStep(pat: Pattern, s: string, i: nat, n: nat, q: nat, masks: seq<string>)
    requires OccursAt(s, Placeholder(n), i) && i <= q < i + |Placeholder(n)|
    ensures var r := SubFrom(pat, s, q + 1, masks);
      SubFrom(pat, s, q, masks) == Masked([s[q]] + r.text, r.masks)
  {
    PlaceholderNotRematched(s, i, n, q);
    SubFromNoMatch(pat, s, q, masks);
  }

  /** Where no match can start, the substitution copies the character. */
  lemma {:induction false} SubFromNoMatch(pat: Pattern, s: string, q: nat, masks: seq<string>)
    requires q < |s| && !(IsDigit(s[q]) && Boundary(s, q))
    ensures var r := SubFrom(pat, s, q + 1, masks);
      SubFrom(pat, s, q, masks) == Masked([s[q]] + r.text, r.masks)
  {
    assert MatchEnd(pat, s, q).None?;
  }

  /** Where no match starts, the substitution copies the character. */
  lemma {:induction false} SubFromCopy(pat: Pattern, s: string, q: nat, masks: seq<string>)
    requires q < |s| && MatchEnd(pat, s, q).None?
    ensures var r := SubFrom(pat, s, q + 1, masks);
      SubFrom(pat, s, q, masks) == Masked([s[q]] + r.text, r.masks)
  {
  }

  /** Where a match starts, the substitution writes the next placeholder and records the match. */
  lemma {:induction false} SubFromMatch(pat: Pattern, s: string, q: nat, e: nat, masks: seq<string>)
    requires q <= |s| && MatchEnd(pat, s, q) == Some(e)
    ensures var r := SubFrom(pat, s, e, masks + [s[q..e]]);
      && SubFrom(pat, s, q, masks) == Masked(Placeholder(|masks|) + r.text, r.masks)
      && |masks| < |r.masks| && r.masks[..|masks| + 1] == masks + [s[q..e]]
  {
  }

  lemma {:induction false} CopyCons(a: Masked, b: Masked, c: Masked, s: string, q: nat, j: nat)
    requires q < j <= |s|
    requires a == Masked([s[q]] + b.text, b.masks)
    requires b == Masked(s[q + 1..j] + c.text, c.masks)
    ensures a == Masked(s[q..j] + c.text, c.masks)
  {
    assert s[q..j] == [s[q]] + s[q + 1..j];
  }

  /** A placeholder in the scanned text is copied whole. */
  lemma {:induction false} SubFromSkipsPlaceholder(pat: Pattern, s: string, i: nat, n: nat, j: nat, masks: seq<string>)
    requires OccursAt(s, Placeholder(n), i) && j == i + |Placeholder(n)|
    ensures SubFrom(pat, s, i, masks) == Masked(Placeholder(n) + SubFrom(pat, s, j, masks).text, SubFrom(pat, s, j, masks).masks)
  {
    SubFromInPlaceholder(pat, s, i, n, j, i, masks);
    CopyPlaceholder(SubFrom(pat, s, i, masks), SubFrom(pat, s, j, masks), s, i, j, Placeholder(n));
  }

  lemma {:induction false} CopyPlaceholder(a: Masked, c: Masked, s: string, i: nat, j: nat, p: string)
    requires OccursAt(s, p, i) && j == i + |p|
    requires a == Masked(s[i..j] + c.text, c.masks)
    ensures a == Masked(p + c.text, c.masks)
  {
  }

  /** The head placeholder of a rendered text occurs in it, and the rest of the tokens spell the rest. */
  lemma {:induction false} SlotHead(s: string, i: nat, ts: seq<Token>)
    requires i <= |s| && Render(ts) == s[i..] && ts != [] && ts[0].Slot?
    ensures var j := i + |Placeholder(ts[0].n)|;
      j <= |s| && OccursAt(s, Placeholder(ts[0].n), i) && Render(ts[1..]) == s[j..]
  {
    var p := Placeholder(ts[0].n);
    assert Render(ts) == p + Render(ts[1..]);
    SuffixSplit(s, i, p, Render(ts[1..]));
  }

  /** A suffix of `s` that splits as `p + r` places `p` at `i` and leaves `r` after it. */
  lemma {:induction false} SuffixSplit(s: string, i: nat, p: string, r: string)
    requires i <= |s| && s[i..] == p + r
    ensures i + |p| <= |s| && s[i..i + |p|] == p && s[i + |p|..] == r
  {
    assert s[i..i + |p|] == s[i..][..|p|];
    assert s[i + |p|..] == s[i..][|p|..];
  }

  /** The head plain character of a rendered text is the text's first character. */
  lemma {:induction false} PlainHead(s: string, i: nat, ts: seq<Token>)
    requires i <= |s| && Render(ts) == s[i..] && ts != [] && ts[0].Plain?
    ensures i < |s| && ts[0] == Plain(s[i]) && Render(ts[1..]) == s[i + 1..]
  {
    assert s[i..] == [ts[0].c] + Render(ts[1..]);
    assert s[i..][0] == s[i];
    assert s[i + 1..] == s[i..][1..];
  }

  /** What a match ending at `e` at the head of the tokens covers, and what remains. */
  lemma {:induction false} MatchHeadAt(s: string, i: nat, e: nat, ts: seq<Token>, masks: seq<string>)
    requires i < e <= |s| && AllPatternChars(s[i..e])
    requires Render(ts) == s[i..] && SlotsWithin(ts, 0, |masks|)
    ensures e - i <= |ts| && Render(ts[e - i..]) == s[e..]
    ensures SlotsWithin(ts[e - i..], 0, |masks|)
    ensures Fill(ts, masks) == s[i..e] + Fill(ts[e - i..], masks)
  {
    var k := e - i;
    MatchHead(s, i, k, ts, masks);
    assert s[i..i + k] == s[i..e] && s[i + k..] == s[e..];
  }

  /** What a match of length `k` at the head of the tokens covers, and what remains. */
  lemma {:induction false} MatchHead(s: string, i: nat, k: nat, ts: seq<Token>, masks: seq<string>)
    requires 0 < k && i + k <= |s| && AllPatternChars(s[i..i + k])
    requires Render(ts) == s[i..] && SlotsWithin(ts, 0, |masks|)
    ensures k <= |ts| && Render(ts[k..]) == s[i + k..]
    ensures SlotsWithin(ts[k..], 0, |masks|)
    ensures Fill(ts, masks) == s[i..i + k] + Fill(ts[k..], masks)
  {
    MatchSlices(s, i, k);
    PatternCharsHaveNoUnderscore(s[i..i + k]);
    PlainPrefixOfLength(ts, s[i..], k, masks);
  }

  /** Tokens that spell `r`, whose first `k` characters hold no underscore, start with `k` plain tokens spelling them. */
  lemma {:induction false} PlainPrefixOfLength(ts: seq<Token>, r: string, k: nat, masks: seq<string>)
    requires k <= |r| && Render(ts) == r && NoUnderscore(r[..k]) && SlotsWithin(ts, 0, |masks|)
    ensures k <= |ts| && Render(ts[k..]) == r[k..]
    ensures SlotsWithin(ts[k..], 0, |masks|) && Fill(ts, masks) == r[..k] + Fill(ts[k..], masks)
  {
    PlainPrefix(ts, r[..k], masks);
  }

  lemma {:induction false} MatchSlices(s: string, i: nat, k: nat)
    requires i + k <= |s|
    ensures s[i..][..k] == s[i..i + k] && s[i..][k..] == s[i + k..]
  {
  }

  /** A placeholder the substitution copies: it stays a slot of the reading. */
  lemma {:induction false} SpellsSlot(big: Masked, r: Masked, t: Token, out: seq<Token>, masks: seq<string>, filled: string)
    requires t.Slot? && t.n < |masks| <= |r.masks| && r.masks[..|masks|] == masks
    requires big == Masked(Placeholder(t.n) + r.text, r.masks)
    requires Spells(r, out, filled)
    ensures Spells(big, [t] + out, masks[t.n] + filled)
  {
    assert ([t] + out)[0] == t && ([t] + out)[1..] == out;
    assert r.masks[..|masks|][t.n] == r.masks[t.n];
  }

  /** A character the substitution copies: it stays a plain token of the reading. */
  lemma {:induction false} SpellsCopy(big: Masked, r: Masked, c: char, out: seq<Token>, filled: string)
    requires c != '_' && big == Masked([c] + r.text, r.masks)
    requires Spells(r, out, filled)
    ensures Spells(big, [Plain(c)] + out, [c] + filled)
  {
    assert ([Plain(c)] + out)[0] == Plain(c) && ([Plain(c)] + out)[1..] == out;
  }

  /** A match the substitution replaces: it becomes the slot of the entry recorded for it. */
  lemma {:induction false} SpellsMatch(big: Masked, r: Masked, m: string, out: seq<Token>, masks: seq<string>, filled: string)
    requires |masks| < |r.masks| && r.masks[..|masks| + 1] == masks + [m]
    requires big == Masked(Placeholder(|masks|) + r.text, r.masks)
    requires Spells(r, out, filled)
    ensures Spells(big, [Slot(|masks|)] + out, m + filled)
  {
    var t := Slot(|masks|);
    assert ([t] + out)[0] == t && ([t] + out)[1..] == out;
    assert r.masks[..|masks| + 1][|masks|] == r.masks[|masks|];
  }

  lemma {:induction false} FillHead(ts: seq<Token>, masks: seq<string>)
    requires ts != [] && SlotsWithin(ts, 0, |masks|)
    ensures SlotsWithin(ts[1..], 0, |masks|)
    ensures Fill(ts, masks) == FillToken(ts[0], masks) + Fill(ts[1..], masks)
  {
  }

  /**
   * Either substitution, read on tokens that spell the scanned text: the
   * result is spelled by tokens that fill back to what the input tokens fill to.
   */
  lemma {:induction false} PassSpell(pat: Pattern, s: string, i: nat, masks: seq<string>, ts: seq<Token>) returns (out: seq<Token>)
    requires i <= |s| && Render(ts) == s[i..] && PlainClean(ts) && SlotsWithin(ts, 0, |masks|)
    ensures Spells(SubFrom(pat, s, i, masks), out, Fill(ts, masks))
    decreases |s| - i, 1
  {
    if ts == [] {
      out := [];
    } else if ts[0].Slot? {
      out := PassSlot(pat, s, i, masks, ts);
    } else {
      match MatchEnd(pat, s, i)
      case Some(e) =>
        out := PassMatch(pat, s, i, e, masks, ts);
      case None =>
        out := PassCopy(pat, s, i, masks, ts);
    }
  }

  /** A placeholder at the head of the tokens is copied and stays a slot. */
  lemma {:induction false} PassSlot(pat: Pattern, s: string, i: nat, masks: seq<string>, ts: seq<Token>) returns (out: seq<Token>)
    requires i <= |s| && Render(ts) == s[i..] && PlainClean(ts) && SlotsWithin(ts, 0, |masks|)
    requires ts != [] && ts[0].Slot?
    ensures Spells(SubFrom(pat, s, i, masks), out, Fill(ts, masks))
    decreases |s| - i, 0
  {
    FillHead(ts, masks);
    var n := ts[0].n;
    SlotHead(s, i, ts);
    var j := i + |Placeholder(n)|;
    var rest := PassSpell(pat, s, j, masks, ts[1..]);
    SubFromSkipsPlaceholder(pat, s, i, n, j, masks);
    SpellsSlot(SubFrom(pat, s, i, masks), SubFrom(pat, s, j, masks), ts[0], rest, masks, Fill(ts[1..], masks));
    out := [ts[0]] + rest;
  }

  /** A match starting at a plain head token becomes the slot of a new entry. */
  lemma {:induction false} PassMatch(pat: Pattern, s: string, i: nat, e: nat, masks: seq<string>, ts: seq<Token>) returns (out: seq<Token>)
    requires i <= |s| && Render(ts) == s[i..] && PlainClean(ts) && SlotsWithin(ts, 0, |masks|)
    requires ts != [] && ts[0].Plain? && MatchEnd(pat, s, i) == Some(e)
    ensures Spells(SubFrom(pat, s, i, masks), out, Fill(ts, masks))
    decreases |s| - i, 0
  {
    PlainHead(s, i, ts);
    MatchHeadAt(s, i, e, ts, masks);
    var more := masks + [s[i..e]];
    FillExtend(ts[e - i..], masks, more);
    var rest := PassSpell(pat, s, e, more, ts[e - i..]);
    SubFromMatch(pat, s, i, e, masks);
    SpellsMatch(SubFrom(pat, s, i, masks), SubFrom(pat, s, e, more), s[i..e], rest, masks, Fill(ts[e - i..], masks));
    out := [Slot(|masks|)] + rest;
  }

  /** A plain head token where no match starts is copied. */
  lemma {:induction false} PassCopy(pat: Pattern, s: string, i: nat, masks: seq<string>, ts: seq<Token>) returns (out: seq<Token>)
    requires i <= |s| && Render(ts) == s[i..] && PlainClean(ts) && SlotsWithin(ts, 0, |masks|)
    requires ts != [] && ts[0].Plain? && MatchEnd(pat, s, i).None?
    ensures Spells(SubFrom(pat, s, i, masks), out, Fill(ts, masks))
    decreases |s| - i, 0
  {
    FillHead(ts, masks);
    PlainHead(s, i, ts);
    var rest := PassSpell(pat, s, i + 1, masks, ts[1..]);
    SubFromCopy(pat, s, i, masks);
    SpellsCopy(SubFrom(pat, s, i, masks), SubFrom(pat, s, i + 1, masks), ts[0].c, rest, Fill(ts[1..], masks));
    out := [ts[0]] + rest;
  }

  // ---------------------------------------------------------------------------
  // The round trip.

  /** The plain tokens of a text without underscores are clean. */
  lemma {:induction false} PlainsClean(s: string)
    requires NoUnderscore(s)
    ensures PlainClean(Plains(s))
  {
  }

  /** Unmasking a text its tokens spell, with entries free of underscores, gives what they fill to. */
  lemma {:induction false} SpellsUnmask(r: Masked, ts: seq<Token>, filled: string)
    requires Spells(r, ts, filled)
    requires forall k | 0 <= k < |r.masks| :: NoUnderscore(r.masks[k])
    ensures Unmask(r.text, r.masks) == filled
  {
    UnmaskFills(ts, r.masks, 0);
  }

  /** Entries recorded by both passes are whole matches, so none holds an underscore. */
  lemma {:induction false} EntriesClean(ms: seq<string>, first: seq<string>)
    requires |first| <= |ms| && ms[..|first|] == first
    requires EntriesFrom(first, 0) && EntriesFrom(ms, |first|)
    ensures forall k | 0 <= k < |ms| :: NoUnderscore(ms[k])
  {
    forall k | 0 <= k < |ms| ensures NoUnderscore(ms[k]) {
      if k < |first| {
        assert ms[..|first|][k] == ms[k];
      }
      PatternCharsHaveNoUnderscore(ms[k]);
    }
  }

  /** A token reading of the masked text that fills back to the original, with clean entries. */
  lemma MaskTokens(t: string) returns (ts: seq<Token>)
    requires NoUnderscore(t)
    ensures Spells(Mask(t), ts, t)
    ensures forall k | 0 <= k < |Mask(t).masks| :: NoUnderscore(Mask(t).masks[k])
  {
    PlainsSpell(t, []);
    PlainsClean(t);
    var ranges := SubFrom(RangePattern, t, 0, []);
    var rs := PassSpell(RangePattern, t, 0, [], Plains(t));
    var values := SubFrom(ValuePattern, ranges.text, 0, ranges.masks);
    ts := PassSpell(ValuePattern, ranges.text, 0, ranges.masks, rs);
    SubFromEntries(RangePattern, t, 0, []);
    SubFromEntries(ValuePattern, ranges.text, 0, ranges.masks);
    EntriesClean(values.masks, ranges.masks);
  }

  /**
   * The round trip the translator relies on: unmasking the masked text gives
   * back the original, for any text without underscores.
   */
  lemma MaskRoundTrip(t: string)
    requires NoUnderscore(t)
    ensures Unmask(Mask(t).text, Mask(t).masks) == t
  {
    var ts := MaskTokens(t);
    SpellsUnmask(Mask(t), ts, t);
  }

  lemma {:induction false} PlainCleanConcat(a: seq<Token>, b: seq<Token>)
    requires PlainClean(a) && PlainClean(b)
    ensures PlainClean(a + b)
  {
    forall k | 0 <= k < |a + b| && (a + b)[k].Plain? ensures (a + b)[k].c != '_' {
      if k >= |a| {
        assert (a + b)[k] == b[k - |a|];
      }
    }
  }

  /** Underscore-free text around the masked text survives unmasking unchanged. */
  lemma {:induction false} SpellsFramed(r: Masked, ts: seq<Token>, filled: string, a: string, b: string)
    requires Spells(r, ts, filled) && NoUnderscore(a) && NoUnderscore(b)
    ensures Spells(Masked(a + r.text + b, r.masks), Plains(a) + ts + Plains(b), a + filled + b)
  {
    var pa, pb := Plains(a), Plains(b);
    PlainsSpell(a, r.masks);
    PlainsSpell(b, r.masks);
    PlainsClean(a);
    PlainsClean(b);
    RenderConcat(pa, ts);
    RenderConcat(pa + ts, pb);
    FillConcat(pa, ts, r.masks);
    FillConcat(pa + ts, pb, r.masks);
    PlainCleanConcat(pa, ts);
    PlainCleanConcat(pa + ts, pb);
  }

  /**
   * A translation backend that only wraps the masked text in underscore-free
   * text gets the original back, wrapped the same way, from unmasking.
   */
  lemma UnmaskFramed(a: string, t: string, b: string)
    requires NoUnderscore(a) && NoUnderscore(t) && NoUnderscore(b)
    ensures Unmask(a + Mask(t).text + b, Mask(t).masks) == a + t + b
  {
    var ts := MaskTokens(t);
    SpellsFramed(Mask(t), ts, t, a, b);
    SpellsUnmask(Masked(a + Mask(t).text + b, Mask(t).masks), Plains(a) + ts + Plains(b), a + t + b);
  }

  /** When the filled text ends in a non-blank character, so does the rendered one. */
  lemma RenderEndsLikeFill(ts: seq<Token>, masks: seq<string>)
    requires SlotsWithin(ts, 0, |masks|)
    requires var f := Fill(ts, masks); f != [] && !IsSpace(f[|f| - 1])
    ensures var r := Render(ts); r != [] && !IsSpace(r[|r| - 1])
  {
    var n := |ts|;
    assert n > 0;
    RenderSnoc(ts);
    FillSnoc(ts, masks);
    var init := ts[..n - 1];
    LastOfConcat(Render(ts), Render(init), TokenText(ts[n - 1]));
    LastOfConcat(Fill(ts, masks), Fill(init, masks), FillToken(ts[n - 1], masks));
    if ts[n - 1].Slot? {
      PlaceholderShape(ts[n - 1].n);
    }
  }

  lemma RenderSnoc(ts: seq<Token>)
    requires ts != []
    ensures Render(ts) == Render(ts[..|ts| - 1]) + TokenText(ts[|ts| - 1])
  {
    var n := |ts| - 1;
    RenderConcat(ts[..n], ts[n..]);
    assert ts[..n] + ts[n..] == ts;
    RenderOne(ts[n..]);
  }

  lemma RenderOne(ts: seq<Token>)
    requires |ts| == 1
    ensures Render(ts) == TokenText(ts[0])
  {
    assert Render(ts) == TokenText(ts[0]) + Render(ts[1..]);
  }

  lemma FillSnoc(ts: seq<Token>, masks: seq<string>)
    requires ts != [] && SlotsWithin(ts, 0, |masks|)
    ensures SlotsWithin(ts[..|ts| - 1], 0, |masks|)
    ensures Fill(ts, masks) == Fill(ts[..|ts| - 1], masks) + FillToken(ts[|ts| - 1], masks)
  {
    var n := |ts| - 1;
    SlotsWithinSplit(ts, n, masks);
    FillConcat(ts[..n], ts[n..], masks);
    assert ts[..n] + ts[n..] == ts;
    FillOne(ts[n..], masks);
  }

  lemma SlotsWithinSplit(ts: seq<Token>, n: nat, masks: seq<string>)
    requires n <= |ts| && SlotsWithin(ts, 0, |masks|)
    ensures SlotsWithin(ts[..n], 0, |masks|) && SlotsWithin(ts[n..], 0, |masks|)
  {
    assert forall k | 0 <= k < n :: ts[..n][k] == ts[k];
    assert forall k | 0 <= k < |ts| - n :: ts[n..][k] == ts[n + k];
  }

  lemma FillOne(ts: seq<Token>, masks: seq<string>)
    requires |ts| == 1 && SlotsWithin(ts, 0, |masks|)
    ensures Fill(ts, masks) == FillToken(ts[0], masks)
  {
    assert Fill(ts, masks) == FillToken(ts[0], masks) + Fill(ts[1..], masks);
  }

  /** The last character of a concatenation with a non-empty right part is that part's last. */
  lemma LastOfConcat(r: string, a: string, b: string)
    requires r == a + b
    ensures b != [] ==> r != [] && r[|r| - 1] == b[|b| - 1]
  {
  }

  /** Masking keeps a non-blank last character non-blank: a trailing number becomes a placeholder ending in '_'. */
  lemma MaskKeepsNonBlankEnd(t: string)
    requires NoUnderscore(t) && t != [] && !IsSpace(t[|t| - 1])
    ensures var m := Mask(t).text; m != [] && !IsSpace(m[|m| - 1])
  {
    var ts := MaskTokens(t);
    SpellsKeepsNonBlankEnd(Mask(t), ts, t);
  }

  lemma SpellsKeepsNonBlankEnd(m: Masked, ts: seq<Token>, t: string)
    requires Spells(m, ts, t) && t != [] && !IsSpace(t[|t| - 1])
    ensures m.text != [] && !IsSpace(m.text[|m.text| - 1])
  {
    RenderEndsLikeFill(ts, m.masks);
  }

  predicate NoDigits(s: string) {
    forall k :: 0 <= k < |s| ==> !IsDigit(s[k])
  }

  /** Without digits nothing matches: the substitution copies the rest of the text. */
  lemma {:induction false} SubFromNoDigits(pat: Pattern, s: string, i: nat, masks: seq<string>)
    requires i <= |s| && NoDigits(s)
    ensures SubFrom(pat, s, i, masks) == Masked(s[i..], masks)
    decreases |s| - i
  {
    if i < |s| {
      SubFromNoMatch(pat, s, i, masks);
      SubFromNoDigits(pat, s, i + 1, masks);
      CopyCons(SubFrom(pat, s, i, masks), SubFrom(pat, s, i + 1, masks), Masked([], masks), s, i, |s|);
    }
  }

  /** A text without digits is left as it is, with nothing recorded. */
  lemma MaskNoDigits(t: string)
    requires NoDigits(t)
    ensures Mask(t) == Masked(t, [])
  {
    SubFromNoDigits(RangePattern, t, 0, []);
    assert t[0..] == t;
    SubFromNoDigits(ValuePattern, t, 0, []);
  }

  /** Every entry `Mask` records is a whole match: a digit first, then pattern characters only. */
  lemma MaskEntries(t: string)
    ensures forall k | 0 <= k < |Mask(t).masks| :: IsEntry(Mask(t).masks[k])
  {
    var ranges := SubFrom(RangePattern, t, 0, []);
    SubFromEntries(RangePattern, t, 0, []);
    SubFromEntries(ValuePattern, ranges.text, 0, ranges.masks);
    var ms := Mask(t).masks;
    forall k | 0 <= k < |ms| ensures IsEntry(ms[k]) {
      if k < |ranges.masks| {
        assert ms[..|ranges.masks|][k] == ms[k];
      }
    }
  }
}
