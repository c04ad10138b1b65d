/**
 * `SmartMedicalTranslator.translate_explanation`: numbers and units are
 * masked, the masked text goes to a translation backend, glossary
 * translations are appended, the numbers are put back and long sentences
 * are broken for speech. The backend is a parameter; the echo backend used
 * for trying the pipeline without machine translation is modelled.
 */
module Translator {
  import opened Wrappers
  import opened Text
  import opened Masking
  import opened Glossary
  import opened Reflow

  /** `TranslationConfig.target_lang` */
  const DefaultLang: string := "mr"

  /** `translate_explanation` with a backend from masked text and language to text or error. */
  function TranslateExplanation(english: string, lang: string, backend: (string, string) -> Result<string>, max: int): (r: Result<string>)
    ensures backend(Mask(english).text, lang).Err? <==> r.Err?
    ensures r.Err? ==> r.message == backend(Mask(english).text, lang).message
  {
    var m := Mask(english);
    match backend(m.text, lang)
    case Err(e) => Err(e)
    case Ok(raw) => Ok(ShortenSentences(Unmask(ApplyGlossary(english, raw, lang), m.masks), max))
  }

  /** The tag `DummyEchoTranslator` puts in front of the text. */
  function EchoPrefix(lang: string): string {
    "[" + lang + " MT HERE] "
  }

  /** `DummyEchoTranslator.translate` */
  function Echo(text: string, lang: string): (r: string)
    ensures HasPrefix(r, EchoPrefix(lang)) && r[|EchoPrefix(lang)|..] == text
  {
    EchoPrefix(lang) + text
  }

  function EchoBackend(text: string, lang: string): Result<string> {
    Ok(Echo(text, lang))
  }

  lemma NoUnderscoreConcat(a: string, b: string)
    requires NoUnderscore(a) && NoUnderscore(b)
    ensures NoUnderscore(a + b)
  {
    assert forall k | 0 <= k < |a + b| :: (a + b)[k] == if k < |a| then a[k] else b[k - |a|];
  }

  lemma EchoPrefixClean(lang: string)
    requires NoUnderscore(lang)
    ensures NoUnderscore(EchoPrefix(lang)) && EchoPrefix(lang)[0] == '['
  {
    assert NoUnderscore("[") && NoUnderscore(" MT HERE] ");
    NoUnderscoreConcat("[", lang);
    NoUnderscoreConcat("[" + lang, " MT HERE] ");
  }

  /** A clean extension of a stripped, non-empty text is stripped too. */
  lemma {:induction false} CleanExtensionStripped(a: string, raw: string)
    requires CleanExtension(a, raw) && raw != [] && IsStripped(raw)
    ensures a == raw + a[|raw|..] && Strip(a) == a
  {
    assert a[..|raw|] == raw;
    assert a[0] == raw[0];
    assert IsStripped(a);
    StripFixesStripped(a);
  }

  lemma EchoStripped(mt: string, lang: string)
    requires NoUnderscore(lang) && mt != [] && !IsSpace(mt[|mt| - 1])
    ensures IsStripped(Echo(mt, lang)) && Echo(mt, lang) != []
  {
    EchoPrefixClean(lang);
    var raw := Echo(mt, lang);
    assert raw[0] == '[';
    assert raw[|raw| - 1] == mt[|mt| - 1];
  }

  /**
   * The glossary step on echoed text: the echo is already stripped, so the
   * glossary only appends underscore-free text to it.
   */
  lemma GlossedEcho(original: string, mt: string, lang: string) returns (x: string)
    requires NoUnderscore(lang) && mt != [] && !IsSpace(mt[|mt| - 1])
    ensures NoUnderscore(x)
    ensures ApplyGlossary(original, Echo(mt, lang), lang) == Echo(mt, lang) + x
  {
    var raw := Echo(mt, lang);
    EchoStripped(mt, lang);
    CleanGlossary(lang);
    AppendFromClean(Entries, original, raw, lang);
    var a := AppendFrom(Entries, original, raw, lang);
    CleanExtensionStripped(a, raw);
    x := a[|raw|..];
  }

  /**
   * With the echo backend the numbers come back intact: the result is the
   * tagged original English followed by glossary translations only, reflowed;
   * no non-blank character is lost or added beyond those.
   */
  lemma EchoPipeline(english: string, lang: string, max: int) returns (x: string)
    requires NoUnderscore(english) && NoUnderscore(lang)
    requires english != [] && !IsSpace(english[|english| - 1])
    ensures NoUnderscore(x)
    ensures TranslateExplanation(english, lang, EchoBackend, max) == Ok(ShortenSentences(Echo(english, lang) + x, max))
    ensures NonSpace(TranslateExplanation(english, lang, EchoBackend, max).value) == NonSpace(Echo(english, lang) + x)
  {
    var m := Mask(english);
    MaskKeepsNonBlankEnd(english);
    x := GlossedEcho(english, m.text, lang);
    EchoPrefixClean(lang);
    UnmaskFramed(EchoPrefix(lang), english, x);
    ShortenKeepsNonSpace(Echo(english, lang) + x, max);
  }

  /** A backend error reaches the caller unchanged. */
  lemma TranslateExplanationFails(english: string, lang: string, backend: (string, string) -> Result<string>, max: int)
    requires backend(Mask(english).text, lang).Err?
    ensures TranslateExplanation(english, lang, backend, max) == Err(backend(Mask(english).text, lang).message)
  {
  }
}
