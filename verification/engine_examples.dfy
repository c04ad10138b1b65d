/** Worked examples of the explanation engine: the demonstration report and the category lookup. */
module EngineExamples {
  import opened Wrappers
  import opened Text
  import opened Decimals
  import opened Engine

  lemma MgPerDecilitre()
    ensures Strip("mg/dL") == "mg/dL"
  {
    var s := "mg/dL";
    assert IsStripped(s) by {
      assert s[0] == 'm' && s[|s| - 1] == 'L';
    }
    StripFixesStripped(s);
  }

  lemma DemonstrationBounds(fraction: real -> string)
    ensures FmtNum(Some(70.0), fraction) == "70"
    ensures FmtNum(Some(110.0), fraction) == "110"
  {
    assert IntToString(70) == "70";
    assert IntToString(110) == "110";
  }

  lemma DemonstrationRange(t: LabTestResult, fraction: real -> string)
    requires t.unit == "mg/dL" && t.refLow == Some(70.0) && t.refHigh == Some(110.0)
    ensures RangeText(t, fraction) == "70-110 mg/dL"
  {
    assert FmtNum(t.refLow, fraction) == "70" && FmtNum(t.refHigh, fraction) == "110" by {
      DemonstrationBounds(fraction);
    }
    assert Strip(t.unit) == "mg/dL" by {
      MgPerDecilitre();
    }
    RangeWords();
  }

  lemma RangeWords()
    ensures "70" + "-" + "110" + " " + "mg/dL" == "70-110 mg/dL"
  {
  }

  lemma FastingSugarIsLowerCase()
    ensures Lower("fasting blood sugar") == "fasting blood sugar"
  {
    var s := "fasting blood sugar";
    assert NoUpperCase(s) by {
      forall k | 0 <= k < |s| ensures !('A' <= s[k] <= 'Z') {
        assert s[k] in "fasting blood sugar";
      }
    }
    LowerFixesLowerCase(s);
  }

  lemma FastingSugarIsStripped()
    ensures Strip("fasting blood sugar") == "fasting blood sugar"
  {
    var s := "fasting blood sugar";
    assert IsStripped(s) by {
      assert s[0] == 'f' && s[|s| - 1] == 'r';
    }
    StripFixesStripped(s);
  }

  lemma FastingSugarKey()
    ensures "fasting blood sugar" in TestCategoryMap
    ensures TestCategoryMap["fasting blood sugar"] == "blood sugar"
  {
  }

  lemma DemonstrationCategory()
    ensures LookupCategory("fasting blood sugar") == Some("blood sugar")
  {
    FastingSugarKey();
    FastingSugarIsStripped();
    FastingSugarIsLowerCase();
  }

  lemma HigherWording()
    ensures Direction(Severity.Abnormal, IsLowFlag(Flag.High)) == "higher"
    ensures ", which is " + "higher" + " " == ", which is higher "
  {
  }

  /** The demonstration summary of the fasting blood sugar quotes its range with the unit. */
  lemma DemonstrationSummaryRange(t: LabTestResult, fraction: real -> string)
    requires t.unit == "mg/dL" && t.refLow == Some(70.0) && t.refHigh == Some(110.0)
    ensures Contains(MakeTestSummary(t, Flag.High, Severity.Abnormal, fraction), "70-110 mg/dL")
  {
    assert RangeText(t, fraction) == "70-110 mg/dL" by {
      DemonstrationRange(t, fraction);
    }
    SummaryQuotesRange(t, Flag.High, Severity.Abnormal, fraction);
  }

  /** A value judged high and abnormal is described as higher than its range. */
  lemma HigherSummary(t: LabTestResult, fraction: real -> string)
    ensures Contains(MakeTestSummary(t, Flag.High, Severity.Abnormal, fraction), ", which is higher ")
  {
    HigherWording();
    SummaryDirection(t, Flag.High, Severity.Abnormal, fraction);
  }

  /** The first test of the engine's demonstration report: judged higher than its range, which is quoted with its unit. */
  lemma FastingSugarExample(fraction: real -> string)
    ensures
      var e := EvaluateTest(LabTestResult("fasting blood sugar", 134.0, "mg/dL", Some(70.0), Some(110.0), None), fraction);
      && e.test.category == Some("blood sugar")
      && e.flag == Flag.High && e.severity == Severity.Abnormal
      && Contains(e.summaryText, ", which is higher ")
      && Contains(e.summaryText, "70-110 mg/dL")
  {
    var raw := LabTestResult("fasting blood sugar", 134.0, "mg/dL", Some(70.0), Some(110.0), None);
    var t := raw.(category := Some("blood sugar"));
    var e := EvaluateTest(raw, fraction);
    assert e.test == t by {
      DemonstrationCategory();
    }
    assert e.flag == Flag.High && e.severity == Severity.Abnormal by {
      DemonstrationClassifications();
    }
    assert Contains(MakeTestSummary(t, Flag.High, Severity.Abnormal, fraction), "70-110 mg/dL") by {
      DemonstrationSummaryRange(t, fraction);
    }
    assert Contains(MakeTestSummary(t, Flag.High, Severity.Abnormal, fraction), ", which is higher ") by {
      HigherSummary(t, fraction);
    }
  }

  lemma HbA1cStripped()
    ensures Strip(" HbA1c ") == "HbA1c"
  {
    var t := "HbA1c";
    assert IsStripped(t) by {
      assert t[0] == 'H' && t[|t| - 1] == 'c';
    }
    StripPadded(t);
    assert [' '] + t + [' '] == " HbA1c ";
  }

  /** A category is found for a name whatever its case and surrounding blanks. */
  lemma CategoryLookupExample()
    ensures LookupCategory(" HbA1c ") == Some("blood sugar")
  {
    assert Strip(" HbA1c ") == "HbA1c" by {
      HbA1cStripped();
    }
    assert Lower("HbA1c") == "hba1c" by {
      HbA1cLower();
    }
    HbA1cKey();
  }


  lemma HbA1cLower()
    ensures Lower("HbA1c") == "hba1c"
  {
  }

  lemma HbA1cKey()
    ensures "hba1c" in TestCategoryMap && TestCategoryMap["hba1c"] == "blood sugar"
  {
  }
}
