/**
 * The speech formatter without decimal handling: sentences end after every
 * '.', '!' and '?' (decimal points included), one sentence per line, and
 * the lines are packed into chunks for speech synthesis.
 */
module NaiveSpeech {
  import opened Text
  import opened Stops
  import opened Packing

  /**
   * The loop of `split_sentences` over the parts of `re.split(r"([.!?])")`,
   * `current` being the text read since the last separator.
   */
  function NaiveFrom(parts: seq<string>, current: string): seq<string>
    decreases |parts|
  {
    if parts == [] then
      (if Strip(current) != [] then [Strip(current)] else [])
    else
      var cur := current + parts[0];
      if IsStopPart(parts[0]) then [Strip(cur)] + NaiveFrom(parts[1..], [])
      else NaiveFrom(parts[1..], cur)
  }

  /** `[s for s in xs if s]` */
  function DropEmpty(xs: seq<string>): (r: seq<string>)
    ensures forall x | x in r :: x != [] && x in xs
    decreases |xs|
  {
    if xs == [] then []
    else if xs[0] == [] then DropEmpty(xs[1..])
    else [xs[0]] + DropEmpty(xs[1..])
  }

  /** `TTSFormatter.split_sentences` */
  function SplitSentences(text: string): seq<string> {
    DropEmpty(NaiveFrom(SplitStops(text), []))
  }

  /** `TTSFormatter.format_for_tts` */
  function FormatForTts(text: string): string {
    Join("\n", SplitSentences(text))
  }

  /** `TTSFormatter.chunk_for_tts` */
  function ChunkForTts(text: string, max: int): seq<string> {
    ChunkLines(FormatForTts(text), max)
  }

  // ---------------------------------------------------------------------------
  // Shape.

  lemma NaiveStopStep(parts: seq<string>, current: string)
    requires parts != [] && IsStopPart(parts[0])
    ensures NaiveFrom(parts, current) == [Strip(current + parts[0])] + NaiveFrom(parts[1..], [])
  {
  }

  lemma NaivePlainStep(parts: seq<string>, current: string)
    requires parts != [] && !IsStopPart(parts[0])
    ensures NaiveFrom(parts, current) == NaiveFrom(parts[1..], current + parts[0])
  {
  }

  /** Stripping a text that ends in a non-blank character keeps that character last. */
  lemma StripKeepsEnd(s: string)
    requires s != [] && !IsSpace(s[|s| - 1])
    ensures Strip(s) != [] && Strip(s)[|Strip(s)| - 1] == s[|s| - 1]
  {
    LStripKeepsEnd(s);
    RStripOfStripped(LStrip(s));
  }

  /** A sentence cut at a separator is non-empty, stripped and ends in the separator. */
  lemma StopSentence(current: string, p: string)
    requires IsStopPart(p)
    ensures var x := Strip(current + p); IsSentence(x) && IsStop(x[|x| - 1])
  {
    StripKeepsEnd(current + p);
  }

  lemma {:induction false} NaiveFromShape(parts: seq<string>, current: string)
    ensures Shaped(NaiveFrom(parts, current))
    decreases |parts|
  {
    if parts != [] {
      var cur := current + parts[0];
      if IsStopPart(parts[0]) {
        NaiveFromShape(parts[1..], []);
        StopSentence(current, parts[0]);
        ConsSentences(Strip(cur), NaiveFrom(parts[1..], []));
      } else {
        NaiveFromShape(parts[1..], cur);
      }
    }
  }

  /** Filtering a list of sentences removes nothing. */
  lemma {:induction false} DropEmptyOfSentences(xs: seq<string>)
    requires AllSentences(xs)
    ensures DropEmpty(xs) == xs
    decreases |xs|
  {
    if xs != [] {
      assert xs[0] in xs;
      assert forall x | x in xs[1..] :: x in xs;
      DropEmptyOfSentences(xs[1..]);
    }
  }

  /**
   * The sentences are non-empty and stripped, and every one but the last
   * ends in '.', '!' or '?'; the final filter removes nothing.
   */
  lemma SplitSentencesShape(text: string)
    ensures Shaped(SplitSentences(text))
    ensures SplitSentences(text) == NaiveFrom(SplitStops(text), [])
  {
    NaiveFromShape(SplitStops(text), []);
    DropEmptyOfSentences(NaiveFrom(SplitStops(text), []));
  }

  // ---------------------------------------------------------------------------
  // Nothing but whitespace is lost.

  lemma NaiveEndNonSpace(current: string)
    ensures NonSpaceAll(NaiveFrom([], current)) == NonSpace(current) + NonSpaceAll([])
  {
    var t := Strip(current);
    assert NaiveFrom([], current) == if t != [] then [t] else [];
    StripKeepsNonSpace(current);
    NaiveLastNonSpace(current, t, NaiveFrom([], current));
  }

  lemma NaiveLastNonSpace(current: string, t: string, r: seq<string>)
    requires NonSpace(t) == NonSpace(current) && r == if t != [] then [t] else []
    ensures NonSpaceAll(r) == NonSpace(current) + NonSpaceAll([])
  {
    assert NonSpaceAll([]) == [];
    if t != [] {
      NonSpaceAllCons(r);
      assert r[1..] == [];
    }
    assert NonSpace(current) + [] == NonSpace(current);
  }

  lemma NaiveStopNonSpace(x: string, rest: seq<string>, current: string, p: string, tail: seq<string>)
    requires NonSpace(x) == NonSpace(current + p) && NonSpaceAll(rest) == NonSpaceAll(tail)
    ensures NonSpaceAll([x] + rest) == NonSpace(current) + NonSpaceAll([p] + tail)
  {
    NonSpaceAllCons([x] + rest);
    assert ([x] + rest)[1..] == rest;
    NonSpaceAllCons([p] + tail);
    assert ([p] + tail)[1..] == tail;
    NonSpaceConcat(current, p);
    AppendAssoc(NonSpace(current), NonSpace(p), NonSpaceAll(tail));
  }

  lemma NaivePlainNonSpace(r: string, current: string, p: string, tail: seq<string>)
    requires r == NonSpace(current + p) + NonSpaceAll(tail)
    ensures r == NonSpace(current) + NonSpaceAll([p] + tail)
  {
    NonSpaceAllCons([p] + tail);
    assert ([p] + tail)[1..] == tail;
    NonSpaceConcat(current, p);
    AppendAssoc(NonSpace(current), NonSpace(p), NonSpaceAll(tail));
  }

  lemma {:induction false} NaiveFromNonSpace(parts: seq<string>, current: string)
    ensures NonSpaceAll(NaiveFrom(parts, current)) == NonSpace(current) + NonSpaceAll(parts)
    decreases |parts|
  {
    if parts == [] {
      NaiveEndNonSpace(current);
    } else {
      var cur := current + parts[0];
      assert parts == [parts[0]] + parts[1..];
      if IsStopPart(parts[0]) {
        NaiveStopStep(parts, current);
        NaiveFromNonSpace(parts[1..], []);
        StripKeepsNonSpace(cur);
        NaiveStopNonSpace(Strip(cur), NaiveFrom(parts[1..], []), current, parts[0], parts[1..]);
      } else {
        NaivePlainStep(parts, current);
        NaiveFromNonSpace(parts[1..], cur);
        NaivePlainNonSpace(NonSpaceAll(NaiveFrom(parts, current)), current, parts[0], parts[1..]);
      }
    }
  }

  /** The sentences hold every non-blank character of the text, in order. */
  lemma SplitSentencesKeepsNonSpace(text: string)
    ensures NonSpaceAll(SplitSentences(text)) == NonSpace(text)
  {
    SplitSentencesShape(text);
    NaiveFromNonSpace(SplitStops(text), []);
    SplitStopsNonSpace(text);
  }

  /** The formatted text, and so its chunks, hold every non-blank character of the text, in order. */
  lemma ChunkForTtsKeepsNonSpace(text: string, max: int)
    ensures NonSpace(FormatForTts(text)) == NonSpace(text)
    ensures NonSpaceAll(ChunkForTts(text, max)) == NonSpace(text)
  {
    SplitSentencesKeepsNonSpace(text);
    NonSpaceJoin("\n", SplitSentences(text));
    ChunkLinesKeepsNonSpace(FormatForTts(text), max);
  }

  // ---------------------------------------------------------------------------
  // How a text is cut.

  /** Text without '.', '!' or '?' is one sentence, stripped, or none when blank. */
  lemma SplitSentencesNoStop(text: string)
    requires NoStop(text)
    ensures SplitSentences(text) == if Strip(text) == [] then [] else [Strip(text)]
  {
    SplitStopsNoStop(text);
    PlainPart(text);
    NaiveSingle(text);
    SplitSentencesShape(text);
  }

  lemma PlainPart(text: string)
    requires NoStop(text)
    ensures !IsStopPart(text)
  {
    if text != [] {
      assert !IsStop(text[0]);
    }
  }

  lemma NaiveSingle(text: string)
    requires !IsStopPart(text)
    ensures NaiveFrom([text], []) == if Strip(text) == [] then [] else [Strip(text)]
  {
    NaivePlainStep([text], []);
    assert [text][1..] == [] && [] + text == text;
  }

  /** The first sentence runs up to and including the first '.', '!' or '?'. */
  lemma SplitSentencesCons(a: string, c: char, rest: string)
    requires NoStop(a) && IsStop(c)
    ensures SplitSentences(a + [c] + rest) == [Strip(a + [c])] + SplitSentences(rest)
  {
    SplitStopsCons(a, c, rest);
    SplitSentencesShape(a + [c] + rest);
    SplitSentencesShape(rest);
    NaiveCons(a, c, SplitStops(rest));
  }

  lemma NaiveCons(a: string, c: char, tail: seq<string>)
    requires NoStop(a) && IsStop(c)
    ensures NaiveFrom([a, [c]] + tail, []) == [Strip(a + [c])] + NaiveFrom(tail, [])
  {
    var parts := [a, [c]] + tail;
    assert parts[0] == a && parts[1..] == [[c]] + tail;
    if a != [] {
      assert !IsStopPart(a) by {
        assert !IsStop(a[0]);
      }
    }
    NaivePlainStep(parts, []);
    assert [] + a == a;
    var more := [[c]] + tail;
    assert more[0] == [c] && more[1..] == tail;
    NaiveStopStep(more, a);
  }

  /** Empty text gives no chunk. */
  lemma ChunkForTtsEmpty(max: int)
    ensures ChunkForTts([], max) == []
  {
    SplitSentencesNoStop([]);
    assert Strip([]) == [];
    ChunkLinesEmpty(max);
  }
}
