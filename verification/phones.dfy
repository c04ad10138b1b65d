/**
 * Mobile-number extraction: the matches of `(?:\+91[-\s]*)?[6-9]\d{9}`
 * found left to right, with later repeats of the same text removed.
 */
module Phones {
  import opened Wrappers
  import opened Text
  import opened Decimals
  import opened Seqs

  /** The class `[-\s]` allowed between "+91" and the number. */
  predicate IsSeparator(c: char) {
    c == '-' || IsSpace(c)
  }

  predicate AllSeparators(s: string) {
    forall k :: 0 <= k < |s| ==> IsSeparator(s[k])
  }

  /** `[6-9]\d{9}`: a ten-digit Indian mobile number. */
  predicate IsMobileDigits(d: string) {
    |d| == 10 && '6' <= d[0] <= '9' && AllDigits(d)
  }

  /** `t` is a whole match of the pattern: the ten digits, optionally after "+91" and separators. */
  predicate IsMobile(t: string) {
    || IsMobileDigits(t)
    || (|t| >= 13 && t[..3] == "+91" && AllSeparators(t[3..|t| - 10]) && IsMobileDigits(t[|t| - 10..]))
  }

  ghost predicate NoMobileAt(s: string, p: nat) {
    forall e | p < e <= |s| :: !IsMobile(s[p..e])
  }

  /**
   * `ms` is what `re.findall` reports when scanning `s` from `from`: each match
   * starts at the first position (at or after the previous match) where the
   * pattern matches, and nothing matches after the last one.
   */
  ghost predicate LeftmostMobiles(s: string, from: nat, ms: seq<Match>)
    decreases |ms|
  {
    if ms == [] then
      forall p | from <= p < |s| :: NoMobileAt(s, p)
    else
      && from <= ms[0].start < ms[0].end <= |s|
      && (forall p | from <= p < ms[0].start :: NoMobileAt(s, p))
      && IsMobile(s[ms[0].start..ms[0].end])
      && LeftmostMobiles(s, ms[0].end, ms[1..])
  }

  // ---------------------------------------------------------------------------
  // The scanner.

  /** End of the maximal run of separators that starts at `i`. */
  function SeparatorRunEnd(s: string, i: nat): (j: nat)
    requires i <= |s|
    ensures i <= j <= |s|
    ensures AllSeparators(s[i..j])
    ensures j == |s| || !IsSeparator(s[j])
    decreases |s| - i
  {
    if i < |s| && IsSeparator(s[i]) then SeparatorRunEnd(s, i + 1) else i
  }

  /** A run of separators from `i` up to a non-separator at `j` is the maximal run. */
  lemma SeparatorRunEndExact(s: string, i: nat, j: nat)
    requires i <= j < |s| && AllSeparators(s[i..j]) && !IsSeparator(s[j])
    ensures SeparatorRunEnd(s, i) == j
  {
    forall k | i <= k < j ensures IsSeparator(s[k]) {
      assert s[k] == s[i..j][k - i];
    }
    SeparatorRunUpTo(s, i, j);
  }

  lemma {:induction false} SeparatorRunUpTo(s: string, i: nat, j: nat)
    requires i <= j < |s| && !IsSeparator(s[j])
    requires forall k | i <= k < j :: IsSeparator(s[k])
    ensures SeparatorRunEnd(s, i) == j
    decreases j - i
  {
    if i < j {
      SeparatorRunUpTo(s, i + 1, j);
    }
  }

  /** Where the pattern's match starting at `p` ends, if it matches there. */
  function MobileEnd(s: string, p: nat): (r: Option<nat>)
    requires p <= |s|
    ensures r.Some? ==> p < r.value <= |s| && IsMobile(s[p..r.value])
  {
    if p + 3 <= |s| && s[p..p + 3] == "+91" then
      var j := SeparatorRunEnd(s, p + 3);
      if j + 10 <= |s| && IsMobileDigits(s[j..j + 10]) then
        var t := s[p..j + 10];
        assert |t| - 10 == j - p;
        assert t[..3] == "+91";
        assert forall k | 3 <= k < j - p :: t[k] == s[p + k];
        assert t[3..j - p] == s[p + 3..j];
        assert t[j - p..] == s[j..j + 10];
        Some(j + 10)
      else None
    else if p + 10 <= |s| && IsMobileDigits(s[p..p + 10]) then Some(p + 10)
    else None
  }

  /** The pattern matches at most one text at each position, and `MobileEnd` finds it. */
  lemma MobileEndIsTheMatch(s: string, p: nat, e: nat)
    requires p < e <= |s|
    ensures IsMobile(s[p..e]) <==> MobileEnd(s, p) == Some(e)
  {
    var t := s[p..e];
    if IsMobileDigits(t) {
      BareMatch(s, p, e);
    } else if IsMobile(t) {
      PrefixedMatch(s, p, e);
    }
  }

  /** Ten digits starting with 6 to 9 cannot start with "+91", so they are the bare match. */
  lemma BareMatch(s: string, p: nat, e: nat)
    requires p < e <= |s| && IsMobileDigits(s[p..e])
    ensures MobileEnd(s, p) == Some(e)
  {
    assert s[p] == s[p..e][0];
    assert p + 3 <= |s| ==> s[p..p + 3][0] == s[p];
  }

  /** "+91", separators and ten digits: the separator run ends exactly where the digits start. */
  lemma PrefixedMatch(s: string, p: nat, e: nat)
    requires p < e <= |s| && !IsMobileDigits(s[p..e]) && IsMobile(s[p..e])
    ensures MobileEnd(s, p) == Some(e)
  {
    var t := s[p..e];
    var j := e - 10;
    assert |t| >= 13 && t[..3] == "+91";
    SliceOfSlice(s, p, e, 0, 3);
    SliceOfSlice(s, p, e, 3, |t| - 10);
    SliceOfSlice(s, p, e, |t| - 10, |t|);
    assert s[j] == t[|t| - 10..][0];
    SeparatorRunEndExact(s, p + 3, j);
  }

  /** No match starts at `p` when `MobileEnd` finds none. */
  lemma NoMobileEndNoMobile(s: string, p: nat)
    requires p <= |s| && MobileEnd(s, p).None?
    ensures NoMobileAt(s, p)
  {
    forall e | p < e <= |s| ensures !IsMobile(s[p..e]) {
      MobileEndIsTheMatch(s, p, e);
    }
  }

  /** `re.findall` from position `i`, as spans. */
  function FindMobilesFrom(s: string, i: nat): (ms: seq<Match>)
    requires i <= |s|
    ensures forall k :: 0 <= k < |ms| ==> i <= ms[k].start < ms[k].end <= |s|
    decreases |s| - i
  {
    if i == |s| then []
    else
      match MobileEnd(s, i)
      case Some(e) => [Match(i, e)] + FindMobilesFrom(s, e)
      case None => FindMobilesFrom(s, i + 1)
  }

  /** The scanner reports exactly the leftmost, non-overlapping matches. */
  lemma {:induction false} FindMobilesFromIsLeftmost(s: string, i: nat)
    requires i <= |s|
    ensures LeftmostMobiles(s, i, FindMobilesFrom(s, i))
    decreases |s| - i
  {
    if i < |s| {
      match MobileEnd(s, i)
      case Some(e) =>
        FindMobilesFromIsLeftmost(s, e);
        MobileStep(s, i, e, FindMobilesFrom(s, e));
      case None =>
        NoMobileEndNoMobile(s, i);
        FindMobilesFromIsLeftmost(s, i + 1);
        NoMobileStep(s, i, FindMobilesFrom(s, i + 1));
    }
  }

  lemma MobileStep(s: string, i: nat, e: nat, rest: seq<Match>)
    requires i < e <= |s| && IsMobile(s[i..e]) && LeftmostMobiles(s, e, rest)
    ensures LeftmostMobiles(s, i, [Match(i, e)] + rest)
  {
    assert ([Match(i, e)] + rest)[1..] == rest;
  }

  lemma NoMobileStep(s: string, i: nat, rest: seq<Match>)
    requires i < |s| && NoMobileAt(s, i) && LeftmostMobiles(s, i + 1, rest)
    ensures LeftmostMobiles(s, i, rest)
  {
  }

  /** The matched texts, in order. */
  function MatchTexts(s: string, ms: seq<Match>): (r: seq<string>)
    requires forall k :: 0 <= k < |ms| ==> ms[k].start <= ms[k].end <= |s|
    ensures |r| == |ms|
    ensures forall k :: 0 <= k < |ms| ==> r[k] == s[ms[k].start..ms[k].end]
  {
    if ms == [] then [] else [s[ms[0].start..ms[0].end]] + MatchTexts(s, ms[1..])
  }

  /** `re.findall(pattern, text)`: every element is a whole match of the pattern. */
  function FindMobiles(s: string): (r: seq<string>)
    ensures forall k :: 0 <= k < |r| ==> IsMobile(r[k])
    ensures forall m :: m in r ==> IsMobile(m)
  {
    var ms := FindMobilesFrom(s, 0);
    FindMobilesFromIsLeftmost(s, 0);
    LeftmostTexts(s, 0, ms);
    MatchTexts(s, ms)
  }

  lemma {:induction false} LeftmostTexts(s: string, from: nat, ms: seq<Match>)
    requires LeftmostMobiles(s, from, ms)
    ensures forall k :: 0 <= k < |ms| ==> ms[k].start < ms[k].end <= |s| && IsMobile(s[ms[k].start..ms[k].end])
    decreases |ms|
  {
    if ms != [] {
      LeftmostTexts(s, ms[0].end, ms[1..]);
      assert forall k :: 1 <= k < |ms| ==> ms[k] == ms[1..][k - 1];
    }
  }

  /**
   * `extract_phone_numbers`: nothing for a missing or empty text; else the
   * matches with later repeats removed, each kept where it first appears.
   */
  function ExtractPhoneNumbers(text: Option<string>): (r: seq<string>)
    ensures text.None? || text == Some("") ==> r == []
    ensures NoDuplicates(r)
    ensures forall m :: m in r ==> IsMobile(m)
    ensures text.Some? ==> forall m :: m in r <==> m in FindMobiles(text.value)
  {
    match text
    case None => []
    case Some(t) => if t == "" then [] else Dedup(FindMobiles(t))
  }

  /** The extracted numbers keep the order in which each first appears among the matches. */
  lemma ExtractPhoneNumbersOrder(text: string)
    ensures var r := ExtractPhoneNumbers(Some(text));
      forall i, j :: 0 <= i < j < |r| ==>
        FirstIndex(FindMobiles(text), r[i]) < FirstIndex(FindMobiles(text), r[j])
  {
    if text != "" {
      DedupOrder(FindMobiles(text));
    }
  }

  /** The source's loop: walk the matches, skip those already seen. */
  method ExtractPhoneNumbersLoop(text: Option<string>) returns (phones: seq<string>)
    ensures phones == ExtractPhoneNumbers(text)
  {
    if text.None? || text.value == "" {
      return [];
    }
    var matches := FindMobiles(text.value);
    phones := KeepFirstOccurrences(matches);
  }
}
