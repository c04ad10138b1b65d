/**
 * `GoogleTranslateBackend._chunk_text`: a long text is cut into sentences
 * at the whitespace that follows '.', '!' or '?', and the sentences are
 * packed greedily into chunks of bounded length for the web endpoint.
 */
module Chunking {
  import opened Text
  import opened Stops
  import opened Packing

  /** `GoogleTranslateBackend.max_chars_per_chunk` */
  const MaxCharsPerChunk: int := 800

  /**
   * `re.split(r"(?<=[.!?])\s+", s)`, `seg` being the sentence read so far:
   * a maximal run of whitespace right after a stop ends the sentence.
   * The character before the run is the last of `seg`; right after a cut
   * it is whitespace, and at the start of the text there is none.
   */
  function SentencesFrom(s: string, seg: string): seq<string>
    decreases |s|
  {
    if s == [] then [seg]
    else if seg != [] && IsStop(seg[|seg| - 1]) && IsSpace(s[0]) then
      [seg] + SentencesFrom(LStrip(s[1..]), [])
    else SentencesFrom(s[1..], seg + [s[0]])
  }

  function Sentences(t: string): seq<string> {
    SentencesFrom(t, [])
  }

  /** `_chunk_text` */
  function ChunkText(text: string, max: int): seq<string> {
    var t := Strip(text);
    if t == [] then [""]
    else if |t| <= max then [t]
    else Pack(Sentences(t), ' ', max)
  }

  // ---------------------------------------------------------------------------
  // Sentences.

  lemma {:induction false} SentencesFromNonSpace(s: string, seg: string)
    ensures NonSpaceAll(SentencesFrom(s, seg)) == NonSpace(seg) + NonSpace(s)
    decreases |s|
  {
    if s == [] {
      assert NonSpaceAll([seg]) == NonSpace(seg) + NonSpaceAll([]);
    } else if seg != [] && IsStop(seg[|seg| - 1]) && IsSpace(s[0]) {
      var rest := SentencesFrom(LStrip(s[1..]), []);
      SentencesFromNonSpace(LStrip(s[1..]), []);
      LStripKeepsNonSpace(s[1..]);
      assert NonSpace(s) == NonSpace(s[1..]);
      assert ([seg] + rest)[1..] == rest;
    } else {
      SentencesFromNonSpace(s[1..], seg + [s[0]]);
      NonSpaceConcat(seg, [s[0]]);
      assert NonSpace(s) == NonSpace([s[0]]) + NonSpace(s[1..]);
      AppendAssoc(NonSpace(seg), NonSpace([s[0]]), NonSpace(s[1..]));
    }
  }

  /** Cutting into sentences drops whitespace only. */
  lemma SentencesNonSpace(t: string)
    ensures NonSpaceAll(Sentences(t)) == NonSpace(t)
  {
    SentencesFromNonSpace(t, []);
  }

  /** The scan over the rest `s` of a stripped, non-empty text, with `seg` read so far. */
  predicate ScanState(s: string, seg: string) {
    && (seg == [] ==> s != [] && !IsSpace(s[0]))
    && (seg != [] ==> !IsSpace(seg[0]))
    && (s != [] ==> !IsSpace(s[|s| - 1]))
    && (s == [] ==> seg != [] && !IsSpace(seg[|seg| - 1]))
  }

  /** A cut: the sentence read so far ends in a stop and whitespace follows. */
  predicate CutAt(s: string, seg: string) {
    s != [] && seg != [] && IsStop(seg[|seg| - 1]) && IsSpace(s[0])
  }

  lemma SentencesFromCut(s: string, seg: string)
    requires CutAt(s, seg)
    ensures SentencesFrom(s, seg) == [seg] + SentencesFrom(LStrip(s[1..]), [])
  {
  }

  lemma SentencesFromPlain(s: string, seg: string)
    requires s != [] && !CutAt(s, seg)
    ensures SentencesFrom(s, seg) == SentencesFrom(s[1..], seg + [s[0]])
  {
  }

  /** After a cut the scan resumes at the next non-blank character. */
  lemma {:induction false} CutState(s: string, seg: string)
    requires ScanState(s, seg) && CutAt(s, seg)
    ensures ScanState(LStrip(s[1..]), [])
  {
    var t := s[1..];
    assert t != [] && t[|t| - 1] == s[|s| - 1];
    LStripKeepsEnd(t);
  }

  lemma {:induction false} PlainState(s: string, seg: string)
    requires ScanState(s, seg) && s != [] && !CutAt(s, seg)
    ensures ScanState(s[1..], seg + [s[0]])
  {
  }

  lemma ShapeEnd(seg: string)
    requires ScanState([], seg)
    ensures Shaped(SentencesFrom([], seg))
  {
    assert SentencesFrom([], seg) == [seg];
  }

  lemma ShapeCut(s: string, seg: string)
    requires ScanState(s, seg) && CutAt(s, seg)
    requires Shaped(SentencesFrom(LStrip(s[1..]), []))
    ensures Shaped(SentencesFrom(s, seg))
  {
    SentencesFromCut(s, seg);
    ConsSentences(seg, SentencesFrom(LStrip(s[1..]), []));
  }

  lemma ShapePlain(s: string, seg: string)
    requires ScanState(s, seg) && s != [] && !CutAt(s, seg)
    requires Shaped(SentencesFrom(s[1..], seg + [s[0]]))
    ensures Shaped(SentencesFrom(s, seg))
  {
    SentencesFromPlain(s, seg);
  }

  lemma {:induction false} SentencesFromShape(s: string, seg: string)
    requires ScanState(s, seg)
    ensures Shaped(SentencesFrom(s, seg))
    decreases |s|
  {
    if s == [] {
      ShapeEnd(seg);
    } else if CutAt(s, seg) {
      CutState(s, seg);
      SentencesFromShape(LStrip(s[1..]), []);
      ShapeCut(s, seg);
    } else {
      PlainState(s, seg);
      SentencesFromShape(s[1..], seg + [s[0]]);
      ShapePlain(s, seg);
    }
  }

  /**
   * The sentences of a stripped text are non-empty and stripped, and every
   * one but the last ends in '.', '!' or '?'.
   */
  lemma SentencesShape(t: string)
    requires t != [] && IsStripped(t)
    ensures AllSentences(Sentences(t)) && StopsBetween(Sentences(t))
  {
    SentencesFromShape(t, []);
  }

  // ---------------------------------------------------------------------------
  // Chunks.

  /** The chunk of a group of sentences is the sentences joined by single spaces. */
  lemma JoinedChunk(g: seq<string>)
    requires g != [] && AllSentences(g)
    ensures ChunkOf(g, ' ') == Join(" ", g) && IsSentence(Join(" ", g))
  {
    TerminatedJoin(g, ' ');
    assert forall k | 0 <= k < |g| :: g[k] in g;
    JoinEnds(" ", g);
    StripDropsTrailingBlank(Join(" ", g), " ");
  }

  lemma FlattenMember(gs: seq<seq<string>>, k: nat, x: string)
    requires k < |gs| && x in gs[k]
    ensures x in Flatten(gs)
    decreases k
  {
    if k > 0 {
      FlattenMember(gs[1..], k - 1, x);
    }
  }

  /** A text that fits, or is blank, is one chunk: the stripped text. */
  lemma ChunkTextShort(text: string, max: int)
    requires Strip(text) == [] || |Strip(text)| <= max
    ensures ChunkText(text, max) == [Strip(text)]
  {
  }

  /**
   * A longer text is cut into its sentences, which are packed in order into
   * groups, each full; each chunk is its group joined by single spaces and is
   * never empty, and a chunk longer than the limit is a single sentence.
   */
  lemma ChunkTextLong(text: string, max: int)
    requires Strip(text) != [] && |Strip(text)| > max
    ensures var ss := Sentences(Strip(text)); var gs := Groups(ss, ' ', max, []);
      var cs := ChunkText(text, max);
      && Flatten(gs) == ss && AllSentences(ss) && |cs| == |gs| && GroupsFull(gs, ' ', max)
      && (forall k | 0 <= k < |cs| :: cs[k] == Join(" ", gs[k]) && IsSentence(cs[k]))
      && (forall k | 0 <= k < |cs| && |cs[k]| > max :: |gs[k]| == 1)
  {
    var t := Strip(text);
    var ss := Sentences(t);
    var gs := Groups(ss, ' ', max, []);
    var cs := ChunkText(text, max);
    SentencesShape(t);
    PackShape(ss, ' ', max);
    forall k | 0 <= k < |gs| ensures AllSentences(gs[k]) && gs[k] != [] {
      assert GroupFits(gs[k], ' ', max);
      forall x | x in gs[k] ensures IsSentence(x) {
        FlattenMember(gs, k, x);
      }
    }
    forall k | 0 <= k < |gs| ensures ChunkOf(gs[k], ' ') == Join(" ", gs[k]) && IsSentence(Join(" ", gs[k])) {
      JoinedChunk(gs[k]);
    }
  }

  lemma NonSpaceAllOne(t: string)
    ensures NonSpaceAll([t]) == NonSpace(t)
  {
    assert NonSpaceAll([t]) == NonSpace(t) + NonSpaceAll([]);
  }

  /** Chunking loses only whitespace: the chunks hold the text's non-blank characters in order. */
  lemma ChunkTextKeepsNonSpace(text: string, max: int)
    ensures NonSpaceAll(ChunkText(text, max)) == NonSpace(text)
  {
    var t := Strip(text);
    StripKeepsNonSpace(text);
    if t == [] || |t| <= max {
      ChunkTextShort(text, max);
      NonSpaceAllOne(t);
    } else {
      assert ChunkText(text, max) == Pack(Sentences(t), ' ', max);
      PackKeepsNonSpace(Sentences(t), ' ', max);
      SentencesNonSpace(t);
    }
  }
}
