/**
 * The speech formatter with decimal handling: numbers are normalised
 * first, then the text is cut at '!', '?' and at a '.' that has no digit
 * on either side; each sentence goes on its own line and the lines are
 * packed into chunks for speech synthesis.
 */
module Speech {
  import opened Text
  import opened Stops
  import opened Packing
  import opened SpokenNumbers

  /** A digit stands right before or right after position `i`. */
  predicate DigitBeside(s: string, i: nat)
    requires i < |s|
  {
    (i > 0 && IsDigit(s[i - 1])) || (i + 1 < |s| && IsDigit(s[i + 1]))
  }

  /** A match of `([!?])|(?<!\d)\.(?!\d)` at `i`: a '.' next to a digit is a decimal point, not an end. */
  predicate BreakAt(s: string, i: nat)
    requires i < |s|
  {
    || s[i] == '!' || s[i] == '?'
    || (s[i] == '.' && !(i > 0 && IsDigit(s[i - 1])) && !(i + 1 < |s| && IsDigit(s[i + 1])))
  }

  predicate NoBreak(s: string) {
    forall i | 0 <= i < |s| :: !BreakAt(s, i)
  }

  /**
   * The loop of `split_sentences` over the matches, `start` being where the
   * current segment begins and `i` the next position to look at: at a match
   * the stripped segment plus the punctuation is a sentence unless the
   * segment is blank; the stripped tail is the last sentence unless blank.
   */
  function SentencesFrom(s: string, start: nat, i: nat): seq<string>
    requires start <= i <= |s|
    decreases |s| - i
  {
    if i == |s| then
      var tail := Strip(s[start..]);
      if tail != [] then [tail] else []
    else if BreakAt(s, i) then
      var seg := Strip(s[start..i]);
      (if seg != [] then [seg + [s[i]]] else []) + SentencesFrom(s, i + 1, i + 1)
    else SentencesFrom(s, start, i + 1)
  }

  /** `TTSFormatter.split_sentences` */
  function SplitSentences(text: string): seq<string> {
    SentencesFrom(text, 0, 0)
  }

  /** `s.strip() for s in sentences if s.strip()` */
  function StripAll(xs: seq<string>): seq<string>
    decreases |xs|
  {
    if xs == [] then []
    else if Strip(xs[0]) == [] then StripAll(xs[1..])
    else [Strip(xs[0])] + StripAll(xs[1..])
  }

  /** `TTSFormatter.format_for_tts` */
  function FormatForTts(text: string): string {
    Join("\n", StripAll(SplitSentences(NormalizeNumbers(text))))
  }

  /** `TTSFormatter.chunk_for_tts` */
  function ChunkForTts(text: string, max: int): seq<string> {
    ChunkLines(FormatForTts(text), max)
  }

  // ---------------------------------------------------------------------------
  // Shape.

  /** The punctuation of a match. */
  lemma BreakIsStop(s: string, i: nat)
    requires i < |s| && BreakAt(s, i)
    ensures IsStop(s[i]) && !IsSpace(s[i]) && !IsDigit(s[i])
  {
  }

  /** A non-blank stripped segment followed by its punctuation is a sentence ending in it. */
  lemma SegmentSentence(seg: string, c: char)
    requires seg != [] && IsStripped(seg) && IsStop(c)
    ensures var x := seg + [c]; IsSentence(x) && IsStop(x[|x| - 1])
  {
  }

  lemma SentencesStep(s: string, start: nat, i: nat)
    requires start <= i < |s| && BreakAt(s, i)
    ensures var seg := Strip(s[start..i]);
      SentencesFrom(s, start, i) == (if seg != [] then [seg + [s[i]]] else []) + SentencesFrom(s, i + 1, i + 1)
  {
  }

  lemma {:induction false} SentencesFromShape(s: string, start: nat, i: nat)
    requires start <= i <= |s|
    ensures Shaped(SentencesFrom(s, start, i))
    decreases |s| - i
  {
    if i == |s| {
      TailShape(s, start);
    } else if BreakAt(s, i) {
      SentencesFromShape(s, i + 1, i + 1);
      BreakShape(s, start, i);
    } else {
      SentencesFromShape(s, start, i + 1);
      NoBreakStep(s, start, i);
    }
  }

  lemma TailShape(s: string, start: nat)
    requires start <= |s|
    ensures Shaped(SentencesFrom(s, start, |s|))
  {
  }

  lemma NoBreakStep(s: string, start: nat, i: nat)
    requires start <= i < |s| && !BreakAt(s, i)
    ensures SentencesFrom(s, start, i) == SentencesFrom(s, start, i + 1)
  {
  }

  lemma BreakShape(s: string, start: nat, i: nat)
    requires start <= i < |s| && BreakAt(s, i)
    requires Shaped(SentencesFrom(s, i + 1, i + 1))
    ensures Shaped(SentencesFrom(s, start, i))
  {
    SentencesStep(s, start, i);
    var seg := Strip(s[start..i]);
    if seg != [] {
      BreakIsStop(s, i);
      SegmentSentence(seg, s[i]);
      ConsSentences(seg + [s[i]], SentencesFrom(s, i + 1, i + 1));
    }
  }

  /** Stripping sentences, and dropping blank ones, changes nothing. */
  lemma {:induction false} StripAllOfSentences(xs: seq<string>)
    requires AllSentences(xs)
    ensures StripAll(xs) == xs
    decreases |xs|
  {
    if xs != [] {
      assert xs[0] in xs;
      StripFixesStripped(xs[0]);
      assert forall x | x in xs[1..] :: x in xs;
      StripAllOfSentences(xs[1..]);
    }
  }

  /**
   * Each sentence is non-empty and stripped; every one but the last ends in
   * its '.', '!' or '?'; the formatted text is the sentences of the
   * normalised text, one per line.
   */
  lemma SplitSentencesShape(text: string)
    ensures Shaped(SplitSentences(text))
    ensures FormatForTts(text) == Join("\n", SplitSentences(NormalizeNumbers(text)))
  {
    SentencesFromShape(text, 0, 0);
    SentencesFromShape(NormalizeNumbers(text), 0, 0);
    StripAllOfSentences(SplitSentences(NormalizeNumbers(text)));
  }

  // ---------------------------------------------------------------------------
  // How a text is cut.

  /** Positions with no match are skipped over. */
  lemma {:induction false} SentencesSkip(s: string, start: nat, i: nat, j: nat)
    requires start <= i <= j <= |s|
    requires forall k | i <= k < j :: !BreakAt(s, k)
    ensures SentencesFrom(s, start, i) == SentencesFrom(s, start, j)
    decreases j - i
  {
    if i < j {
      SentencesSkip(s, start, i + 1, j);
    }
  }

  /** Whether `i` is a match depends only on the characters next to it. */
  lemma BreakAtShift(p: string, r: string, j: nat)
    requires j < |r| && (p == [] || !IsDigit(p[|p| - 1]))
    ensures BreakAt(p + r, |p| + j) == BreakAt(r, j)
  {
    var s := p + r;
    assert s[|p| + j] == r[j];
    if j > 0 {
      assert s[|p| + j - 1] == r[j - 1];
    }
    if j + 1 < |r| {
      assert s[|p| + j + 1] == r[j + 1];
    }
  }

  lemma ShiftEnd(p: string, r: string, start: nat)
    requires start <= |r|
    ensures SentencesFrom(p + r, |p| + start, |p| + |r|) == SentencesFrom(r, start, |r|)
  {
    assert (p + r)[|p| + start..] == r[start..];
  }

  lemma ShiftBreak(p: string, r: string, start: nat, i: nat)
    requires start <= i < |r| && BreakAt(r, i) && BreakAt(p + r, |p| + i)
    requires SentencesFrom(p + r, |p| + i + 1, |p| + i + 1) == SentencesFrom(r, i + 1, i + 1)
    ensures SentencesFrom(p + r, |p| + start, |p| + i) == SentencesFrom(r, start, i)
  {
    var s := p + r;
    assert s[|p| + start..|p| + i] == r[start..i];
    assert s[|p| + i] == r[i];
    SentencesStep(s, |p| + start, |p| + i);
    SentencesStep(r, start, i);
  }

  lemma ShiftPlain(p: string, r: string, start: nat, i: nat)
    requires start <= i < |r| && !BreakAt(r, i) && !BreakAt(p + r, |p| + i)
    requires SentencesFrom(p + r, |p| + start, |p| + i + 1) == SentencesFrom(r, start, i + 1)
    ensures SentencesFrom(p + r, |p| + start, |p| + i) == SentencesFrom(r, start, i)
  {
  }

  /** After a text ending in a non-digit, the scan goes on as on the rest alone. */
  lemma {:induction false} SentencesShift(p: string, r: string, start: nat, i: nat)
    requires start <= i <= |r| && (p == [] || !IsDigit(p[|p| - 1]))
    ensures SentencesFrom(p + r, |p| + start, |p| + i) == SentencesFrom(r, start, i)
    decreases |r| - i
  {
    if i == |r| {
      ShiftEnd(p, r, start);
    } else {
      BreakAtShift(p, r, i);
      if BreakAt(r, i) {
        SentencesShift(p, r, i + 1, i + 1);
        ShiftBreak(p, r, start, i);
      } else {
        SentencesShift(p, r, start, i + 1);
        ShiftPlain(p, r, start, i);
      }
    }
  }

  /** `c` ends a sentence after `a` and before `rest`. */
  predicate BreakBetween(a: string, c: char, rest: string) {
    || c == '!' || c == '?'
    || (c == '.' && (a == [] || !IsDigit(a[|a| - 1])) && (rest == [] || !IsDigit(rest[0])))
  }

  lemma BreakAtJoint(a: string, c: char, rest: string)
    requires BreakBetween(a, c, rest)
    ensures BreakAt(a + [c] + rest, |a|)
  {
    var s := a + [c] + rest;
    assert s[|a|] == c;
    if |a| > 0 {
      assert s[|a| - 1] == a[|a| - 1];
    }
    if |a| + 1 < |s| {
      assert s[|a| + 1] == rest[0];
    }
  }

  /** No match inside `a` when it is followed by punctuation. */
  lemma NoBreakPrefix(a: string, c: char, rest: string)
    requires NoBreak(a) && IsStop(c)
    ensures forall k | 0 <= k < |a| :: !BreakAt(a + [c] + rest, k)
  {
    var s := a + [c] + rest;
    forall k | 0 <= k < |a| ensures !BreakAt(s, k) {
      assert !BreakAt(a, k);
      assert s[k] == a[k];
      if k > 0 {
        assert s[k - 1] == a[k - 1];
      }
      if k + 1 < |a| {
        assert s[k + 1] == a[k + 1];
      } else {
        assert s[k + 1] == c;
      }
    }
  }

  /**
   * The first sentence runs up to the first match: the stripped text before
   * it plus the punctuation, or nothing when that text is blank.
   */
  lemma SplitSentencesCons(a: string, c: char, rest: string)
    requires NoBreak(a) && IsStop(c) && BreakBetween(a, c, rest)
    ensures SplitSentences(a + [c] + rest) ==
      (if Strip(a) != [] then [Strip(a) + [c]] else []) + SplitSentences(rest)
  {
    var p := a + [c];
    var s := p + rest;
    assert SentencesFrom(s, 0, 0) == SentencesFrom(s, 0, |a|) by {
      NoBreakPrefix(a, c, rest);
      SentencesSkip(s, 0, 0, |a|);
    }
    assert SentencesFrom(s, 0, |a|) ==
      (if Strip(a) != [] then [Strip(a) + [c]] else []) + SentencesFrom(s, |a| + 1, |a| + 1) by {
      BreakAtJoint(a, c, rest);
      SentencesStep(s, 0, |a|);
      assert s[0..|a|] == a && s[|a|] == c;
    }
    ShiftAfterStop(a, c, rest);
  }

  /** After the first match, the scan goes on as on the rest alone. */
  lemma ShiftAfterStop(a: string, c: char, rest: string)
    requires IsStop(c)
    ensures SentencesFrom(a + [c] + rest, |a| + 1, |a| + 1) == SentencesFrom(rest, 0, 0)
  {
    var p := a + [c];
    assert p[|p| - 1] == c;
    SentencesShift(p, rest, 0, 0);
  }

  /** Text without a match is one sentence, stripped, or none when blank. */
  lemma SplitSentencesNoBreak(text: string)
    requires NoBreak(text)
    ensures SplitSentences(text) == if Strip(text) == [] then [] else [Strip(text)]
  {
    SentencesSkip(text, 0, 0, |text|);
    assert text[0..] == text;
  }

  /**
   * Text whose only stops are decimal points, each with a digit before or
   * after it, stays one sentence: its stripped self, or nothing when blank.
   */
  lemma DecimalPointsKeepSentence(s: string)
    requires forall i | 0 <= i < |s| :: s[i] != '!' && s[i] != '?'
    requires forall i | 0 <= i < |s| && s[i] == '.' :: DigitBeside(s, i)
    ensures SplitSentences(s) == if Strip(s) == [] then [] else [Strip(s)]
  {
    forall i | 0 <= i < |s| ensures !BreakAt(s, i) {
      if s[i] == '.' {
        assert DigitBeside(s, i);
      }
    }
    SplitSentencesNoBreak(s);
  }

  /** Empty text gives no chunk. */
  lemma ChunkForTtsEmpty(max: int)
    ensures ChunkForTts([], max) == []
  {
    assert NormalizeNumbers([]) == [];
    SplitSentencesNoBreak([]);
    assert Strip([]) == [];
    ChunkLinesEmpty(max);
  }
}
