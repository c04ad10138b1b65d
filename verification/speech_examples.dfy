/** Concrete texts through the two speech formatters. */
module SpeechExamples {
  import opened Text
  import opened Stops
  import NaiveSpeech
  import Speech
  import SpokenNumbers

  lemma NineDotFour()
    ensures NoStop("9") && NoStop("4")
    ensures "9" + ['.'] + "4" == "9.4" && "9" + ['.'] == "9."
  {
  }

  lemma StrippedNineDot()
    ensures Strip("9.") == "9."
  {
    var s := "9.";
    assert IsStripped(s) by {
      assert s[0] == '9' && s[|s| - 1] == '.';
    }
    StripFixesStripped(s);
  }

  lemma StrippedFour()
    ensures Strip("4") == "4"
  {
    var s := "4";
    assert IsStripped(s) by {
      assert s[0] == '4';
    }
    StripFixesStripped(s);
  }

  /** A decimal point ends a sentence here: "9.4" is read as "9." and "4". */
  lemma SplitSentencesDecimal()
    ensures NaiveSpeech.SplitSentences("9.4") == ["9.", "4"]
  {
    NineDotFour();
    StrippedNineDot();
    StrippedFour();
    NaiveSpeech.SplitSentencesCons("9", '.', "4");
    NaiveSpeech.SplitSentencesNoStop("4");
  }

  // ---------------------------------------------------------------------------
  // The decimal-aware formatter.

  const ValueClause: string := "Your value is 9.4 g/dL"
  const NormalText: string := "It is normal"
  const NormalClause: string := [' '] + NormalText
  const TwoSentences: string := "Your value is 9.4 g/dL. It is normal."

  lemma ValueClauseNoBreak()
    ensures Speech.NoBreak(ValueClause)
  {
  }

  lemma NormalClauseNoBreak()
    ensures Speech.NoBreak(NormalClause)
  {
  }

  lemma TwoSentencesParts()
    ensures TwoSentences == ValueClause + ['.'] + (NormalClause + ['.'] + [])
    ensures ValueClause[|ValueClause| - 1] == 'L' && NormalClause[0] == ' '
  {
  }

  lemma ValueClauseStripped()
    ensures Strip(ValueClause) == ValueClause
  {
    var s := ValueClause;
    assert IsStripped(s) by {
      assert s[0] == 'Y' && s[|s| - 1] == 'L';
    }
    StripFixesStripped(s);
  }

  lemma NormalClauseStripped()
    ensures Strip(NormalClause) == NormalText
  {
    var t := NormalText;
    assert IsStripped(t) by {
      assert t[0] == 'I' && t[|t| - 1] == 'l';
    }
    StripLeftPadded(t);
  }

  lemma SentenceTexts()
    ensures ValueClause + ['.'] == "Your value is 9.4 g/dL."
    ensures NormalText + ['.'] == "It is normal."
  {
  }

  /** The decimal point in "9.4" does not end the first sentence. */
  lemma SplitSentencesKeepsDecimal()
    ensures Speech.SplitSentences(TwoSentences) == ["Your value is 9.4 g/dL.", "It is normal."]
  {
    TwoSentencesParts();
    ValueClauseNoBreak();
    NormalClauseNoBreak();
    ValueClauseStripped();
    NormalClauseStripped();
    SentenceTexts();
    Speech.SplitSentencesCons(ValueClause, '.', NormalClause + ['.'] + []);
    Speech.SplitSentencesCons(NormalClause, '.', []);
    Speech.SplitSentencesNoBreak([]);
  }

  lemma SixteenParts()
    ensures "16.0" == "16" + "." + "0" && AllDigits("16") && AllDigits("0")
    ensures SpokenNumbers.AllZeros("0")
  {
  }

  /** A fraction of zeros is dropped: "16.0" is read as "16". */
  lemma NormalizeWholeNumber()
    ensures SpokenNumbers.NormalizeNumbers("16.0") == "16"
  {
    SixteenParts();
    SpokenNumbers.NormalizeWholeDecimal("16", "0");
  }

  lemma NinePointFourParts()
    ensures "9.4" == "9" + "." + "4" && AllDigits("9") && AllDigits("4")
    ensures !SpokenNumbers.AllZeros("4")
    ensures "9" + " point " + "4" == "9 point 4"
  {
    assert "4"[0] != '0';
  }

  /** Any other fraction is read after "point": "9.4" is read as "9 point 4". */
  lemma NormalizeDecimal()
    ensures SpokenNumbers.NormalizeNumbers("9.4") == "9 point 4"
  {
    NinePointFourParts();
    SpokenNumbers.NormalizeWholeDecimal("9", "4");
  }
}
