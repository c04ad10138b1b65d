/**
 * The glossary post-processing step of the translator: for every glossary
 * phrase found (case-insensitively) in the English original, the controlled
 * translation is appended to the machine translation unless it already
 * occurs there; the result is stripped.
 */
module Glossary {
  import opened Wrappers
  import opened Text
  import opened Masking

  /** An English phrase with its controlled Marathi and Hindi translations. */
  datatype Entry = Entry(phrase: string, marathi: string, hindi: string)

  const FastingMr: string := "उपासाचा रक्तातील साखर"
  const FastingHi: string := "उपवास के समय की रक्त शर्करा"
  const SlightlyHighMr: string := "थोडी जास्त आहे"
  const SlightlyHighHi: string := "थोड़ी अधिक है"
  const NormalMr: string := "सामान्य आहे"
  const NormalHi: string := "सामान्य है"
  const ShowDoctorMr: string := "कृपया ही चाचणी तुमच्या डॉक्टरांना दाखवा."
  const ShowDoctorHi: string := "कृपया यह जांच अपने डॉक्टर को दिखाएँ।"

  /** `GLOSSARY`, in the order the dictionary lists it. */
  const Entries: seq<Entry> := [
    Entry("fasting blood sugar", FastingMr, FastingHi),
    Entry("slightly high", SlightlyHighMr, SlightlyHighHi),
    Entry("normal", NormalMr, NormalHi),
    Entry("please show this report to your doctor", ShowDoctorMr, ShowDoctorHi)
  ]

  /** `translations.get(lang_key)`: the glossary has "mr" and "hi" entries only. */
  function Desired(e: Entry, lang: string): (r: Option<string>)
    ensures r.Some? <==> lang == "mr" || lang == "hi"
  {
    if lang == "mr" then Some(e.marathi)
    else if lang == "hi" then Some(e.hindi)
    else None
  }

  /** The entry is enforced: its phrase occurs in the original and it has a non-empty translation. */
  predicate Applies(e: Entry, original: string, lang: string) {
    && Contains(Lower(original), Lower(e.phrase))
    && Desired(e, lang).Some? && Desired(e, lang).value != []
  }

  /** One iteration: append the entry's translation after a space when it applies and is missing. */
  function Step(e: Entry, original: string, translated: string, lang: string): string {
    if Applies(e, original, lang) && !Contains(translated, Desired(e, lang).value)
    then translated + " " + Desired(e, lang).value
    else translated
  }

  /** The loop of `apply_glossary` over the entries `g`, before the final `strip()`. */
  function AppendFrom(g: seq<Entry>, original: string, translated: string, lang: string): string
    decreases |g|
  {
    if g == [] then translated
    else AppendFrom(g[1..], original, Step(g[0], original, translated, lang), lang)
  }

  /** `apply_glossary` */
  function ApplyGlossary(original: string, translated: string, lang: string): string {
    Strip(AppendFrom(Entries, original, translated, lang))
  }

  /** A translation that survives every later step: non-empty, non-blank at both ends, no '_'. */
  predicate CleanTranslation(d: string) {
    d != [] && IsStripped(d) && NoUnderscore(d)
  }

  predicate CleanFor(g: seq<Entry>, lang: string) {
    forall k | 0 <= k < |g| :: Desired(g[k], lang).Some? ==> CleanTranslation(Desired(g[k], lang).value)
  }

  // ---------------------------------------------------------------------------
  // The loop.

  /**
   * `r` extends `t` by text that holds no '_' and is empty or ends in a
   * non-blank character: unmasking and stripping leave such an appendix alone.
   */
  predicate CleanExtension(r: string, t: string) {
    HasPrefix(r, t) && NoUnderscore(r[|t|..]) && (|r| == |t| || !IsSpace(r[|r| - 1]))
  }

  lemma PrefixTrans(a: string, b: string, c: string)
    requires HasPrefix(a, b) && HasPrefix(b, c)
    ensures HasPrefix(a, c)
  {
    assert a[..|c|] == a[..|b|][..|c|];
  }

  lemma CleanExtensionTrans(r: string, n: string, t: string)
    requires CleanExtension(r, n) && CleanExtension(n, t)
    ensures CleanExtension(r, t)
  {
    PrefixTrans(r, n, t);
    assert r[|t|..] == n[|t|..] + r[|n|..];
    if |r| == |n| {
      assert r == n;
    }
  }

  lemma StepExtends(e: Entry, original: string, translated: string, lang: string)
    ensures HasPrefix(Step(e, original, translated, lang), translated)
    ensures Desired(e, lang).Some? && CleanTranslation(Desired(e, lang).value) ==>
      CleanExtension(Step(e, original, translated, lang), translated)
  {
    var n := Step(e, original, translated, lang);
    if n != translated {
      var d := Desired(e, lang).value;
      assert n[..|translated|] == translated;
      assert n[|translated|..] == " " + d;
    }
  }

  lemma CleanForTail(g: seq<Entry>, lang: string)
    requires g != [] && CleanFor(g, lang)
    ensures CleanFor(g[1..], lang)
  {
    assert forall k | 0 <= k < |g[1..]| :: g[1..][k] == g[k + 1];
  }

  /** The loop only appends to the translation. */
  lemma {:induction false} AppendFromExtends(g: seq<Entry>, original: string, translated: string, lang: string)
    ensures HasPrefix(AppendFrom(g, original, translated, lang), translated)
    decreases |g|
  {
    if g != [] {
      var next := Step(g[0], original, translated, lang);
      StepExtends(g[0], original, translated, lang);
      AppendFromExtends(g[1..], original, next, lang);
      PrefixTrans(AppendFrom(g, original, translated, lang), next, translated);
    }
  }

  /** For clean glossary translations, what the loop appends is a clean extension. */
  lemma {:induction false} AppendFromClean(g: seq<Entry>, original: string, translated: string, lang: string)
    requires CleanFor(g, lang)
    ensures CleanExtension(AppendFrom(g, original, translated, lang), translated)
    decreases |g|
  {
    if g == [] {
      assert translated[..|translated|] == translated;
    } else {
      var next := Step(g[0], original, translated, lang);
      StepExtends(g[0], original, translated, lang);
      CleanForTail(g, lang);
      AppendFromClean(g[1..], original, next, lang);
      if Desired(g[0], lang).None? {
        assert next == translated;
      } else {
        assert CleanTranslation(Desired(g[0], lang).value);
        CleanExtensionTrans(AppendFrom(g, original, translated, lang), next, translated);
      }
    }
  }

  /** After one step, the entry's translation occurs whenever the entry applies. */
  lemma StepContains(e: Entry, original: string, translated: string, lang: string)
    requires Applies(e, original, lang)
    ensures Contains(Step(e, original, translated, lang), Desired(e, lang).value)
  {
    var d := Desired(e, lang).value;
    if !Contains(translated, d) {
      ContainsSuffix(translated + " ", d);
    }
  }

  lemma ContainsPrefix(r: string, n: string, d: string)
    requires HasPrefix(r, n) && Contains(n, d)
    ensures Contains(r, d)
  {
    assert r == n + r[|n|..];
    ContainsExtend(n, r[|n|..], d);
  }

  /** After the loop, every applicable translation occurs in the result. */
  lemma {:induction false} AppendFromContains(g: seq<Entry>, original: string, translated: string, lang: string)
    ensures forall k | 0 <= k < |g| :: Applies(g[k], original, lang) ==>
      Contains(AppendFrom(g, original, translated, lang), Desired(g[k], lang).value)
    decreases |g|
  {
    if g != [] {
      var next := Step(g[0], original, translated, lang);
      var r := AppendFrom(g, original, translated, lang);
      AppendFromContains(g[1..], original, next, lang);
      forall k | 0 <= k < |g| && Applies(g[k], original, lang) ensures Contains(r, Desired(g[k], lang).value) {
        if k == 0 {
          StepContains(g[0], original, translated, lang);
          AppendFromExtends(g[1..], original, next, lang);
          ContainsPrefix(r, next, Desired(g[0], lang).value);
        } else {
          assert g[k] == g[1..][k - 1];
        }
      }
    }
  }

  /** When every applicable translation already occurs, the loop appends nothing. */
  lemma {:induction false} AppendFromKeeps(g: seq<Entry>, original: string, translated: string, lang: string)
    requires forall k | 0 <= k < |g| :: Applies(g[k], original, lang) ==> Contains(translated, Desired(g[k], lang).value)
    ensures AppendFrom(g, original, translated, lang) == translated
    decreases |g|
  {
    if g != [] {
      assert forall k | 0 <= k < |g[1..]| :: g[1..][k] == g[k + 1];
      AppendFromKeeps(g[1..], original, translated, lang);
    }
  }

  // ---------------------------------------------------------------------------
  // The glossary.

  lemma CleanPair(m: string, h: string)
    requires m != [] && '_' !in m && !IsSpace(m[0]) && !IsSpace(m[|m| - 1])
    requires h != [] && '_' !in h && !IsSpace(h[0]) && !IsSpace(h[|h| - 1])
    ensures CleanTranslation(m) && CleanTranslation(h)
  {
  }

  lemma CleanFasting()
    ensures CleanTranslation(FastingMr) && CleanTranslation(FastingHi)
  {
    CleanPair(FastingMr, FastingHi);
  }

  lemma CleanSlightlyHigh()
    ensures CleanTranslation(SlightlyHighMr) && CleanTranslation(SlightlyHighHi)
  {
    CleanPair(SlightlyHighMr, SlightlyHighHi);
  }

  lemma CleanNormal()
    ensures CleanTranslation(NormalMr) && CleanTranslation(NormalHi)
  {
    CleanPair(NormalMr, NormalHi);
  }

  lemma CleanShowDoctor()
    ensures CleanTranslation(ShowDoctorMr) && CleanTranslation(ShowDoctorHi)
  {
    CleanPair(ShowDoctorMr, ShowDoctorHi);
  }

  /** Every glossary translation is non-empty, non-blank at both ends and free of '_'. */
  lemma CleanGlossary(lang: string)
    ensures CleanFor(Entries, lang)
  {
    CleanFasting();
    CleanSlightlyHigh();
    CleanNormal();
    CleanShowDoctor();
  }

  // ---------------------------------------------------------------------------
  // `apply_glossary`

  /** Every glossary translation whose phrase occurs in the original ends up in the result. */
  lemma ApplyGlossaryContains(original: string, translated: string, lang: string)
    ensures forall k | 0 <= k < |Entries| :: Applies(Entries[k], original, lang) ==>
      Contains(ApplyGlossary(original, translated, lang), Desired(Entries[k], lang).value)
  {
    AppendFromContains(Entries, original, translated, lang);
    CleanGlossary(lang);
    var r := AppendFrom(Entries, original, translated, lang);
    forall k | 0 <= k < |Entries| && Applies(Entries[k], original, lang)
      ensures Contains(Strip(r), Desired(Entries[k], lang).value)
    {
      ContainsStrip(r, Desired(Entries[k], lang).value);
    }
  }

  /**
   * When every applicable translation already occurs in the translation
   * (in particular when no phrase applies, or the language has no entries),
   * the result is the stripped translation.
   */
  lemma ApplyGlossaryKeeps(original: string, translated: string, lang: string)
    requires forall k | 0 <= k < |Entries| :: Applies(Entries[k], original, lang) ==>
      Contains(translated, Desired(Entries[k], lang).value)
    ensures ApplyGlossary(original, translated, lang) == Strip(translated)
  {
    AppendFromKeeps(Entries, original, translated, lang);
  }

  /** A language other than "mr" and "hi" only strips the translation. */
  lemma ApplyGlossaryOtherLanguage(original: string, translated: string, lang: string)
    requires lang != "mr" && lang != "hi"
    ensures ApplyGlossary(original, translated, lang) == Strip(translated)
  {
    AppendFromKeeps(Entries, original, translated, lang);
  }

  /** The glossary only appends: the result starts with the stripped translation. */
  lemma ApplyGlossaryPrefix(original: string, translated: string, lang: string)
    ensures HasPrefix(ApplyGlossary(original, translated, lang), Strip(translated))
  {
    AppendFromExtends(Entries, original, translated, lang);
    StripExtendsPrefix(AppendFrom(Entries, original, translated, lang), translated);
  }

  /** Applying the glossary twice changes nothing more. */
  lemma ApplyGlossaryIdempotent(original: string, translated: string, lang: string)
    ensures var once := ApplyGlossary(original, translated, lang);
      ApplyGlossary(original, once, lang) == once
  {
    var once := ApplyGlossary(original, translated, lang);
    ApplyGlossaryContains(original, translated, lang);
    ApplyGlossaryKeeps(original, once, lang);
    StripIdempotent(AppendFrom(Entries, original, translated, lang));
  }

  /**
   * Phrases are matched as plain substrings, so an original that calls a
   * value "abnormal" makes the "normal" entry apply: its translation
   * ("is normal") is appended to the translation when missing.
   */
  lemma AbnormalTriggersNormal(translated: string)
    requires !Contains(translated, NormalMr)
    ensures Applies(Entries[2], "abnormal", "mr")
    ensures Step(Entries[2], "abnormal", translated, "mr") == translated + " " + NormalMr
  {
    AbnormalContainsNormal();
    assert Entries[2] == Entry("normal", NormalMr, NormalHi);
  }

  lemma AbnormalContainsNormal()
    ensures Contains(Lower("abnormal"), Lower("normal"))
  {
    LowerFixesLowerCase("abnormal");
    LowerFixesLowerCase("normal");
    assert "abnormal"[2..8] == "normal";
    assert OccursAt("abnormal", "normal", 2);
  }
}
