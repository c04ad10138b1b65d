/**
 * `GoogleTranslateBackend`: the language code sent to the web endpoint,
 * the reading of its reply, and `translate`, which chunks the text,
 * translates chunk by chunk and joins the results with spaces. The HTTP
 * request is a parameter: a function from a chunk and a language code to
 * the translated text or the message of the exception it raised.
 */
module WebBackend {
  import opened Wrappers
  import opened Text
  import opened Chunking

  /** `_map_lang`: language names and codes to the endpoint's code, case-insensitively. */
  function MapLang(lang: string): (r: string)
    ensures r == "mr" <==> Lower(lang) == "mr" || Lower(lang) == "marathi"
    ensures r == "hi" <==> Lower(lang) == "hi" || Lower(lang) == "hindi"
    ensures r != "mr" && r != "hi" ==> r == Lower(lang)
  {
    var t := Lower(lang);
    if t == "mr" || t == "marathi" then "mr"
    else if t == "hi" || t == "hindi" then "hi"
    else t
  }

  lemma LowerIsLowerCase(s: string)
    ensures NoUpperCase(Lower(s))
  {
  }

  /** Mapping a code that was already mapped changes nothing. */
  lemma MapLangIdempotent(lang: string)
    ensures MapLang(MapLang(lang)) == MapLang(lang)
  {
    var r := MapLang(lang);
    if r != "mr" && r != "hi" {
      LowerIsLowerCase(lang);
      LowerFixesLowerCase(r);
    } else {
      assert Lower("mr") == "mr" && Lower("hi") == "hi";
    }
  }

  /** The full names reach the two supported codes, in any case. */
  lemma MapLangMarathi()
    ensures MapLang("Marathi") == "mr"
  {
    assert Lower("Marathi") == "marathi";
  }

  lemma MapLangHindi()
    ensures MapLang("HINDI") == "hi"
  {
    assert Lower("HINDI") == "hindi";
  }

  // ---------------------------------------------------------------------------
  // The endpoint's reply.

  /** A segment of `data[0]` is kept when it is non-empty and its first entry is a non-empty text. */
  predicate Kept(seg: seq<Option<string>>) {
    seg != [] && seg[0].Some? && seg[0].value != []
  }

  /** `"".join` of the first entries of the kept segments of `data[0]`. */
  function ReplyText(data: seq<seq<Option<string>>>): (r: string)
    decreases |data|
  {
    if data == [] then []
    else (if Kept(data[0]) then data[0][0].value else []) + ReplyText(data[1..])
  }

  /** The reply text of two runs of segments is the two texts, one after the other. */
  lemma {:induction false} ReplyTextAppend(a: seq<seq<Option<string>>>, b: seq<seq<Option<string>>>)
    ensures ReplyText(a + b) == ReplyText(a) + ReplyText(b)
    decreases |a|
  {
    if a == [] {
      assert a + b == b;
    } else {
      assert (a + b)[0] == a[0] && (a + b)[1..] == a[1..] + b;
      ReplyTextAppend(a[1..], b);
      AppendAssoc(if Kept(a[0]) then a[0][0].value else [], ReplyText(a[1..]), ReplyText(b));
    }
  }

  /** One segment per sentence: the reply is the sentences' translations, concatenated. */
  lemma {:induction false} ReplyTextOfSentences(ts: seq<string>, originals: seq<string>)
    requires |ts| == |originals|
    ensures ReplyText(Pairs(ts, originals)) == Concat(ts)
    decreases |ts|
  {
    if ts != [] {
      ReplyTextOfSentences(ts[1..], originals[1..]);
      assert Pairs(ts, originals)[1..] == Pairs(ts[1..], originals[1..]);
    }
  }

  /** Segments of the form `[translated, original]`. */
  function Pairs(ts: seq<string>, originals: seq<string>): (r: seq<seq<Option<string>>>)
    requires |ts| == |originals|
    ensures |r| == |ts|
    decreases |ts|
  {
    if ts == [] then [] else [[Some(ts[0]), Some(originals[0])]] + Pairs(ts[1..], originals[1..])
  }

  // ---------------------------------------------------------------------------
  // Translating the chunks.

  /** The loop over the chunks: the first failure ends it. */
  function TranslateChunks(chunks: seq<string>, code: string, f: (string, string) -> Result<string>): (r: Result<seq<string>>)
    ensures r.Ok? ==> |r.value| == |chunks| && forall k | 0 <= k < |chunks| :: f(chunks[k], code) == Ok(r.value[k])
    ensures r.Err? ==> exists k | 0 <= k < |chunks| ::
      f(chunks[k], code) == Err(r.message) && forall j | 0 <= j < k :: f(chunks[j], code).Ok?
    decreases |chunks|
  {
    if chunks == [] then Ok([])
    else
      match f(chunks[0], code)
      case Err(m) => Err(m)
      case Ok(t) =>
        match TranslateChunks(chunks[1..], code, f)
        case Err(m) =>
          assert exists k | 0 <= k < |chunks[1..]| ::
            f(chunks[1..][k], code) == Err(m) && forall j | 0 <= j < k :: f(chunks[1..][j], code).Ok?;
          var k :| 0 <= k < |chunks[1..]| &&
            f(chunks[1..][k], code) == Err(m) && forall j | 0 <= j < k :: f(chunks[1..][j], code).Ok?;
          assert forall j | 0 <= j < k + 1 :: f(chunks[j], code).Ok? by {
            forall j | 0 < j < k + 1 ensures f(chunks[j], code).Ok? {
              assert chunks[j] == chunks[1..][j - 1];
            }
          }
          Err(m)
        case Ok(ts) => Ok([t] + ts)
  }

  /** When every chunk translates, the loop succeeds; one result per chunk, in order. */
  lemma {:induction false} TranslateChunksAllOk(chunks: seq<string>, code: string, f: (string, string) -> Result<string>)
    requires forall k | 0 <= k < |chunks| :: f(chunks[k], code).Ok?
    ensures TranslateChunks(chunks, code, f).Ok?
    decreases |chunks|
  {
    if chunks != [] {
      assert f(chunks[0], code).Ok?;
      forall k | 0 <= k < |chunks[1..]| ensures f(chunks[1..][k], code).Ok? {
        assert chunks[1..][k] == chunks[k + 1];
      }
      TranslateChunksAllOk(chunks[1..], code, f);
    }
  }

  /** The error message of `translate`. */
  function ChunkFailure(m: string): string {
    "Translation failed for a chunk: " + m
  }

  /** `GoogleTranslateBackend.translate` with chunk limit `max`. */
  function Translate(text: string, lang: string, f: (string, string) -> Result<string>, max: int): (r: Result<string>)
  {
    if text == [] then Ok([])
    else
      match TranslateChunks(ChunkText(text, max), MapLang(lang), f)
      case Err(m) => Err(ChunkFailure(m))
      case Ok(outs) => Ok(Join(" ", outs))
  }

  /** Empty text goes nowhere near the endpoint. */
  lemma TranslateEmpty(lang: string, f: (string, string) -> Result<string>, max: int)
    ensures Translate([], lang, f, max) == Ok([])
  {
  }

  /**
   * A non-empty text is translated chunk by chunk with the mapped code: the
   * result is the chunks' translations joined by spaces, or the first
   * failure's message behind the fixed prefix.
   */
  lemma TranslateChunked(text: string, lang: string, f: (string, string) -> Result<string>, max: int)
    requires text != []
    ensures var cs := ChunkText(text, max); var r := Translate(text, lang, f, max);
      && (r.Ok? <==> forall k | 0 <= k < |cs| :: f(cs[k], MapLang(lang)).Ok?)
      && (r.Ok? ==> exists outs: seq<string> | |outs| == |cs| ::
            r.value == Join(" ", outs) && forall k | 0 <= k < |cs| :: f(cs[k], MapLang(lang)) == Ok(outs[k]))
      && (r.Err? ==> exists k | 0 <= k < |cs| ::
            f(cs[k], MapLang(lang)).Err? && r.message == ChunkFailure(f(cs[k], MapLang(lang)).message)
            && forall j | 0 <= j < k :: f(cs[j], MapLang(lang)).Ok?)
  {
    var cs := ChunkText(text, max);
    var code := MapLang(lang);
    if forall k | 0 <= k < |cs| :: f(cs[k], code).Ok? {
      TranslateChunksAllOk(cs, code, f);
    }
  }

  /** With a backend that returns each chunk unchanged, only whitespace changes. */
  lemma TranslateIdentityKeepsNonSpace(text: string, lang: string, max: int)
    ensures var r := Translate(text, lang, (c: string, l: string) => Ok(c), max);
      r.Ok? && NonSpace(r.value) == NonSpace(text)
  {
    var f := (c: string, l: string) => Ok(c);
    if text != [] {
      var cs := ChunkText(text, max);
      TranslateChunksAllOk(cs, MapLang(lang), f);
      var outs := TranslateChunks(cs, MapLang(lang), f).value;
      assert outs == cs;
      NonSpaceJoin(" ", cs);
      ChunkTextKeepsNonSpace(text, max);
    }
  }
}
