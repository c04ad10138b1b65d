/**
 * `SmartMedicalTranslator._shorten_sentences`: the translated text is cut
 * after every '.', '!' and '?', each sentence stripped and followed by a
 * space, or by a line break when it is longer than the configured length.
 */
module Reflow {
  import opened Text
  import opened Stops

  /** `TranslationConfig.max_sentence_len` */
  const MaxSentenceLen: int := 180

  /**
   * The loop over the split parts, `current` being the sentence read so far:
   * at each separator the stripped sentence is emitted, followed by a line
   * break when it is longer than `max` and by a space otherwise.
   */
  function ReflowParts(parts: seq<string>, max: int, current: string): string
    decreases |parts|
  {
    if parts == [] then current
    else
      var cur := current + parts[0];
      if IsStopPart(parts[0]) then Emit(cur, max) + ReflowParts(parts[1..], max, [])
      else ReflowParts(parts[1..], max, cur)
  }

  /** A finished sentence: stripped, then a line break if it was longer than `max`, else a space. */
  function Emit(sentence: string, max: int): string {
    Strip(sentence) + (if |sentence| > max then "\n" else " ")
  }

  /** What `rebuilt` holds after the loop. */
  function Reflow(text: string, max: int): string {
    ReflowParts(SplitStops(text), max, [])
  }

  /** `SmartMedicalTranslator._shorten_sentences` */
  function ShortenSentences(text: string, max: int): (r: string)
    ensures IsStripped(r)
  {
    Strip(Reflow(text, max))
  }

  /** An emitted sentence keeps its non-blank characters; the break adds none. */
  lemma EmitNonSpace(sentence: string, max: int)
    ensures NonSpace(Emit(sentence, max)) == NonSpace(sentence)
  {
    var brk: string := if |sentence| > max then "\n" else " ";
    StripKeepsNonSpace(sentence);
    NonSpaceConcat(Strip(sentence), brk);
    NonSpaceOfBlank(brk);
  }

  lemma StopStepNonSpace(r: string, e: string, rest: string, current: string, p: string, all: string, tail: string)
    requires r == e + rest && NonSpace(e) == NonSpace(current + p)
    requires NonSpace(rest) == tail && all == NonSpace(p) + tail
    ensures NonSpace(r) == NonSpace(current) + all
  {
    NonSpaceConcat(e, rest);
    NonSpaceConcat(current, p);
    AppendAssoc(NonSpace(current), NonSpace(p), tail);
  }

  lemma ReflowStopStep(parts: seq<string>, max: int, current: string)
    requires parts != [] && IsStopPart(parts[0])
    ensures ReflowParts(parts, max, current) == Emit(current + parts[0], max) + ReflowParts(parts[1..], max, [])
  {
  }

  lemma ReflowPlainStep(parts: seq<string>, max: int, current: string)
    requires parts != [] && !IsStopPart(parts[0])
    ensures ReflowParts(parts, max, current) == ReflowParts(parts[1..], max, current + parts[0])
  {
  }

  lemma {:induction false} ReflowPartsNonSpace(parts: seq<string>, max: int, current: string)
    ensures NonSpace(ReflowParts(parts, max, current)) == NonSpace(current) + NonSpaceAll(parts)
    decreases |parts|
  {
    if parts == [] {
      assert NonSpace(current) + NonSpaceAll(parts) == NonSpace(current);
    } else if IsStopPart(parts[0]) {
      ReflowPartsNonSpace(parts[1..], max, []);
      assert NonSpace([]) + NonSpaceAll(parts[1..]) == NonSpaceAll(parts[1..]);
      ReflowStopNonSpace(parts, max, current);
    } else {
      ReflowPartsNonSpace(parts[1..], max, current + parts[0]);
      ReflowPlainNonSpace(parts, max, current);
    }
  }

  lemma ReflowStopNonSpace(parts: seq<string>, max: int, current: string)
    requires parts != [] && IsStopPart(parts[0])
    requires NonSpace(ReflowParts(parts[1..], max, [])) == NonSpaceAll(parts[1..])
    ensures NonSpace(ReflowParts(parts, max, current)) == NonSpace(current) + NonSpaceAll(parts)
  {
    NonSpaceAllCons(parts);
    ReflowStopStep(parts, max, current);
    EmitNonSpace(current + parts[0], max);
    StopStepNonSpace(ReflowParts(parts, max, current), Emit(current + parts[0], max), ReflowParts(parts[1..], max, []),
      current, parts[0], NonSpaceAll(parts), NonSpaceAll(parts[1..]));
  }

  lemma ReflowPlainNonSpace(parts: seq<string>, max: int, current: string)
    requires parts != [] && !IsStopPart(parts[0])
    requires NonSpace(ReflowParts(parts[1..], max, current + parts[0])) == NonSpace(current + parts[0]) + NonSpaceAll(parts[1..])
    ensures NonSpace(ReflowParts(parts, max, current)) == NonSpace(current) + NonSpaceAll(parts)
  {
    NonSpaceAllCons(parts);
    ReflowPlainStep(parts, max, current);
    NonSpaceConcat(current, parts[0]);
    AppendAssoc(NonSpace(current), NonSpace(parts[0]), NonSpaceAll(parts[1..]));
  }

  /** Reflowing keeps every non-blank character, in order; only whitespace changes. */
  lemma ShortenKeepsNonSpace(text: string, max: int)
    ensures NonSpace(ShortenSentences(text, max)) == NonSpace(text)
  {
    ReflowPartsNonSpace(SplitStops(text), max, []);
    SplitStopsNonSpace(text);
    StripKeepsNonSpace(Reflow(text, max));
  }

  /** Text without '.', '!' or '?' is only stripped. */
  lemma ShortenNoStop(text: string, max: int)
    requires NoStop(text)
    ensures Reflow(text, max) == text
    ensures ShortenSentences(text, max) == Strip(text)
  {
    SplitStopsNoStop(text);
    if text != [] {
      assert !IsStopPart(text) by {
        assert !IsStop(text[0]);
      }
    }
    assert ReflowParts([text], max, []) == ReflowParts([], max, [] + text);
    assert [] + text == text;
  }

  /**
   * The first sentence, up to and including the first separator, is emitted
   * stripped and followed by a line break exactly when it is longer than `max`.
   */
  lemma ReflowCons(a: string, c: char, rest: string, max: int)
    requires NoStop(a) && IsStop(c)
    ensures Reflow(a + [c] + rest, max)
      == Strip(a + [c]) + (if |a| + 1 > max then "\n" else " ") + Reflow(rest, max)
  {
    SplitStopsCons(a, c, rest);
    var parts := [a, [c]] + SplitStops(rest);
    if a != [] {
      assert !IsStopPart(a) by {
        assert !IsStop(a[0]);
      }
    }
    assert parts[0] == a;
    assert parts[1..] == [[c]] + SplitStops(rest);
    assert ReflowParts(parts, max, []) == ReflowParts(parts[1..], max, [] + a);
    assert [] + a == a;
    assert IsStopPart([c]);
    assert parts[1..][1..] == SplitStops(rest);
    assert ReflowParts(parts[1..], max, a) == Emit(a + [c], max) + ReflowParts(SplitStops(rest), max, []);
  }

  /** A text no longer than `max` gets no line break it did not already have. */
  lemma {:induction false} ReflowShortNoBreak(text: string, max: int)
    requires |text| <= max && '\n' !in text
    ensures '\n' !in Reflow(text, max)
    decreases |text|
  {
    if NoStop(text) {
      ShortenNoStop(text, max);
    } else {
      var a, c, rest := FirstStop(text);
      ReflowCons(a, c, rest, max);
      assert '\n' !in rest && '\n' !in a + [c] by {
        assert text == (a + [c]) + rest;
      }
      ReflowShortNoBreak(rest, max);
      StripLacks(a + [c], '\n');
    }
  }

  lemma ShortenShortNoBreak(text: string, max: int)
    requires |text| <= max && '\n' !in text
    ensures '\n' !in ShortenSentences(text, max)
  {
    ReflowShortNoBreak(text, max);
    StripLacks(Reflow(text, max), '\n');
  }

  /**
   * A decimal point counts as a sentence end: a number such as "9.4" comes
   * out as "9. 4", its two digit runs split by a space.
   */
  lemma ShortenSplitsDecimal(i: string, f: string)
    requires i != [] && f != [] && AllDigits(i) && AllDigits(f) && |i| < MaxSentenceLen
    ensures ShortenSentences(i + "." + f, MaxSentenceLen) == i + ". " + f
  {
    assert Reflow(i + "." + f, MaxSentenceLen) == i + ". " + f by {
      ReflowDecimal(i, f);
    }
    assert IsStripped(i + ". " + f) by {
      assert (i + ". " + f)[0] == i[0];
      assert (i + ". " + f)[|i + ". " + f| - 1] == f[|f| - 1];
    }
    StripFixesStripped(i + ". " + f);
  }

  lemma ReflowDecimal(i: string, f: string)
    requires i != [] && AllDigits(i) && AllDigits(f) && |i| < MaxSentenceLen
    ensures Reflow(i + "." + f, MaxSentenceLen) == i + ". " + f
  {
    ReflowAtDot(i, f);
    DigitsNoStop(f);
    ShortenNoStop(f, MaxSentenceLen);
    StripDigitsDot(i);
    DotThenSpace(i, f);
  }

  lemma DigitsNoStop(s: string)
    requires AllDigits(s)
    ensures NoStop(s)
  {
    assert forall k | 0 <= k < |s| :: IsDigit(s[k]);
  }

  lemma ReflowAtDot(i: string, f: string)
    requires AllDigits(i) && |i| < MaxSentenceLen
    ensures Reflow(i + "." + f, MaxSentenceLen) == Strip(i + ".") + " " + Reflow(f, MaxSentenceLen)
  {
    DigitsNoStop(i);
    ReflowCons(i, '.', f, MaxSentenceLen);
    assert i + ['.'] + f == i + "." + f;
  }

  lemma StripDigitsDot(i: string)
    requires i != [] && AllDigits(i)
    ensures Strip(i + ".") == i + "."
  {
    assert (i + ".")[0] == i[0];
    StripFixesStripped(i + ".");
  }

  lemma DotThenSpace(i: string, f: string)
    ensures i + "." + " " + f == i + ". " + f
  {
    AppendAssoc(i, ".", " ");
    assert "." + " " == ". ";
  }
}
