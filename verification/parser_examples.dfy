/** Worked examples of the PDF parser: cells, header rows and the text fallback on the lines its own comments use. */
module ParserExamples {
  import opened Wrappers
  import opened Text
  import opened Decimals
  import opened Parser

  lemma Twelve()
    ensures NatToString(12) == "12" && IntToString(12) == "12"
  {
  }

  lemma Fifteen()
    ensures NatToString(15) == "15" && IntToString(-15) == "-15"
  {
  }

  lemma TwoHundred()
    ensures IntToString(200) == "200"
  {
  }

  /** A range cell "12-15 g/dL" gives the bounds 12 and 15. */
  lemma RangeCellExample()
    ensures ParseRange(Some("12-15 g/dL")) == Some(Bounds(12.0, 15.0))
  {
    Twelve();
    Fifteen();
    assert "12" + "-" + "15" + " g/dL" == "12-15 g/dL";
    ParseRangeOfRendered(12, 15, "-", " g/dL");
  }

  /** The cell parser keeps the order written: a reversed range stays reversed. */
  lemma ReversedRangeCellExample()
    ensures ParseRange(Some("15-12")) == Some(Bounds(15.0, 12.0))
  {
    Twelve();
    Fifteen();
    assert "15" + "-" + "12" + "" == "15-12";
    ParseRangeOfRendered(15, 12, "-", "");
  }

  /** A cell without two numbers gives no range. */
  lemma NoRangeCellExample()
    ensures ParseRange(Some("Negative")) == None
  {
    NegativeHasNoDigits();
    NormalizeDashesOfPlain("Negative");
    NoDigitsNoLiterals("Negative", 0, false);
  }

  lemma NegativeHasNoDigits()
    ensures NoDigits("Negative") && NoFancyDash("Negative")
  {
  }

  /** A value cell "<200 mg/dL" gives 200: the comparison sign is not part of the number. */
  lemma ValueCellExample()
    ensures ParseValue(Some("<200 mg/dL")) == Some(200.0)
  {
    TwoHundred();
    assert "<" + "200" + " mg/dL" == "<200 mg/dL";
    ParseValueOfRendered("<", 200, " mg/dL");
  }

  lemma Five()
    ensures IntToString(-5) == "-5"
  {
  }

  /** Cells with the same text once dashes are normalised read the same. */
  lemma SameDashNormalForm(c: string, d: string)
    requires NormalizeDashes(c) == NormalizeDashes(d)
    ensures ParseValue(Some(c)) == ParseValue(Some(d))
    ensures ParseRange(Some(c)) == ParseRange(Some(d))
  {
  }

  lemma MinusSignNormalised()
    ensures NormalizeDashes("\U{2212}5 mmol/L") == "-5 mmol/L"
  {
    var s := "\U{2212}5 mmol/L";
    var t := "-5 mmol/L";
    var r := NormalizeDashes(s);
    assert |r| == |t|;
    forall k | 0 <= k < |s|
      ensures r[k] == t[k]
    {
      if k == 0 {
        assert s[0] == '\U{2212}';
      } else {
        assert s[k] == t[k] && t[k] in "5 mol/L";
      }
    }
  }

  lemma PlainMinusUnchanged()
    ensures NormalizeDashes("-5 mmol/L") == "-5 mmol/L"
  {
    var t := "-5 mmol/L";
    assert forall k | 0 <= k < |t| :: !IsFancyDash(t[k]) by {
      assert forall k | 0 <= k < |t| :: t[k] in "-5 mol/L";
    }
    NormalizeDashesOfPlain(t);
  }

  lemma MinusFiveValue()
    ensures ParseValue(Some("-5 mmol/L")) == Some(-5.0)
  {
    Five();
    assert "" + "-5" + " mmol/L" == "-5 mmol/L";
    ParseValueOfRendered("", -5, " mmol/L");
  }

  /** A value written with the Unicode minus sign reads as a negative number. */
  lemma MinusSignValueExample()
    ensures ParseValue(Some("\U{2212}5 mmol/L")) == Some(-5.0)
  {
    MinusSignNormalised();
    PlainMinusUnchanged();
    SameDashNormalForm("\U{2212}5 mmol/L", "-5 mmol/L");
    MinusFiveValue();
  }

  // The text fallback.

  lemma NinePointFour()
    ensures OneLiteral("9.4") && LiteralValue("9.4") == 9.4
  {
    NinePointFourScan();
    NinePointFourValue();
  }

  lemma NinePointFourScan()
    ensures OneLiteral("9.4")
  {
  }

  lemma NinePointFourValue()
    ensures LiteralValue("9.4") == 9.4
  {
  }

  lemma LayoutPiecesScan()
    ensures OneLiteral("12") && LiteralValue("12") == 12.0
    ensures OneLiteral("15") && LiteralValue("15") == 15.0
    ensures OneLiteral("-15") && LiteralValue("-15") == -15.0
  {
    Twelve();
    Fifteen();
    NatToStringScansBack(12, true);
    NatToStringScansBack(15, true);
    IntToStringScansBack(-15);
  }

  /** A line without the letters t, p, v and r, in either case, mentions none of the fallback's keywords. */
  lemma NoKeywordLetters(line: string)
    requires 't' !in line && 'T' !in line && 'p' !in line && 'P' !in line
    requires 'v' !in line && 'V' !in line && 'r' !in line && 'R' !in line
    ensures !MentionsAny(Lower(line), LineKeywords)
  {
    LowerLacks(line, 't');
    LowerLacks(line, 'p');
    LowerLacks(line, 'v');
    LowerLacks(line, 'r');
    KeywordLetters(Lower(line));
  }

  lemma KeywordLetters(low: string)
    requires 't' !in low && 'p' !in low && 'v' !in low && 'r' !in low
    ensures !MentionsAny(low, LineKeywords)
  {
    forall k | 0 <= k < |LineKeywords| ensures !Contains(low, LineKeywords[k]) {
      KeywordLetter(low, k);
    }
  }

  lemma KeywordLetter(low: string, k: nat)
    requires 't' !in low && 'p' !in low && 'v' !in low && 'r' !in low
    requires k < |LineKeywords|
    ensures !Contains(low, LineKeywords[k])
  {
    if k == 0 { MissingCharNotContained(low, "test", 0); }
    else if k == 1 { MissingCharNotContained(low, "parameter", 0); }
    else if k == 2 { MissingCharNotContained(low, "investigation", 2); }
    else if k == 3 { MissingCharNotContained(low, "result", 0); }
    else if k == 4 { MissingCharNotContained(low, "value", 0); }
    else if k == 5 { MissingCharNotContained(low, "reference", 0); }
    else if k == 6 { MissingCharNotContained(low, "normal", 2); }
    else { MissingCharNotContained(low, "unit", 3); }
  }

  lemma HemoglobinLine()
    ensures Layout("Hemoglobin", "9.4", " g/dL ", "12", " - ", "15") == "Hemoglobin 9.4 g/dL 12 - 15"
  {
  }

  lemma HemoglobinLineLetters()
    ensures var line := "Hemoglobin 9.4 g/dL 12 - 15";
      't' !in line && 'T' !in line && 'p' !in line && 'P' !in line
      && 'v' !in line && 'V' !in line && 'r' !in line && 'R' !in line
  {
    HemoglobinLacks('t');
    HemoglobinLacks('T');
    HemoglobinLacks('p');
    HemoglobinLacks('P');
    HemoglobinLacks('v');
    HemoglobinLacks('V');
    HemoglobinLacks('r');
    HemoglobinLacks('R');
  }

  lemma HemoglobinLacks(c: char)
    requires c in "tTpPvVrR"
    ensures c !in "Hemoglobin 9.4 g/dL 12 - 15"
  {
  }

  lemma HemoglobinName()
    ensures IsStripped("Hemoglobin") && NoDigits("Hemoglobin")
  {
  }

  lemma GramsPerDecilitre()
    ensures NoDigits(" g/dL ") && StartsClear(" g/dL ") && Strip(" g/dL ") == "g/dL"
  {
    GramsClear();
    GramsStrip();
  }

  lemma GramsClear()
    ensures NoDigits(" g/dL ") && StartsClear(" g/dL ")
  {
  }

  lemma GramsStrip()
    ensures Strip(" g/dL ") == "g/dL"
  {
    var t := "g/dL";
    assert IsStripped(t) by {
      assert t[0] == 'g' && t[|t| - 1] == 'L';
    }
    StripPadded(t);
    assert [' '] + t + [' '] == " g/dL ";
  }

  lemma SpacedDash()
    ensures NoDigits(" - ") && StartsClear(" - 15")
  {
  }

  lemma HemoglobinSeparates()
    ensures Separable(" g/dL ", "12", true) && Separable(" - ", "15", true)
    ensures " g/dL " != [] && !IsSpace("15"[|"15"| - 1])
  {
  }

  lemma HemoglobinReady()
    ensures LayoutReady("Hemoglobin", "9.4", " g/dL ", "12", " - ", "15")
  {
    NinePointFour();
    LayoutPiecesScan();
    HemoglobinName();
    GramsPerDecilitre();
    SpacedDash();
    HemoglobinSeparates();
    HemoglobinLine();
    HemoglobinLineLetters();
    NoKeywordLetters("Hemoglobin 9.4 g/dL 12 - 15");
  }

  /** The line the fallback's own comment describes: hemoglobin below its range. */
  lemma FallbackLineExample()
    ensures LineRecord("Hemoglobin 9.4 g/dL 12 - 15")
         == Some(Row("Hemoglobin", 9.4, "g/dL", 12.0, 15.0, Below))
  {
    HemoglobinRecord();
    HemoglobinLine();
  }

  lemma HemoglobinRecord()
    ensures LineRecord(Layout("Hemoglobin", "9.4", " g/dL ", "12", " - ", "15"))
         == Some(Row("Hemoglobin", 9.4, "g/dL", 12.0, 15.0, Below))
  {
    HemoglobinFacts();
    LayoutRecord("Hemoglobin", "9.4", " g/dL ", "12", " - ", "15", 9.4, 12.0, 15.0, "g/dL", Below);
  }

  lemma HemoglobinFacts()
    ensures RecordFacts("Hemoglobin", "9.4", " g/dL ", "12", " - ", "15", 9.4, 12.0, 15.0, "g/dL", Below)
  {
    HemoglobinReady();
    HemoglobinValues();
    GramsPerDecilitre();
    HemoglobinStatus();
  }

  lemma HemoglobinValues()
    ensures LiteralValue("9.4") == 9.4 && LiteralValue("12") == 12.0 && LiteralValue("15") == 15.0
  {
    NinePointFour();
    LayoutPiecesScan();
  }

  lemma HemoglobinStatus()
    ensures var b := Ordered(12.0, 15.0); ClassifyStatus(Some(9.4), Some(b.low), Some(b.high)) == Below
  {
  }


  /** The conditions under which `LineRecordOfLayout` reads a laid-out line. */
  ghost predicate LayoutReady(name: string, v: string, mid: string, lo: string, sep: string, hi: string) {
    && name != [] && IsStripped(name) && NoDigits(name)
    && OneLiteral(v) && OneLiteral(lo) && OneLiteral(hi) && !IsSpace(hi[|hi| - 1])
    && NoDigits(mid) && mid != [] && StartsClear(mid) && Separable(mid, lo, true)
    && NoDigits(sep) && StartsClear(sep + hi) && Separable(sep, hi, true)
    && !MentionsAny(Lower(Layout(name, v, mid, lo, sep, hi)), LineKeywords)
  }

  /**
   * A laid-out line the fallback reads, whose value and bounds read as `x`,
   * `l` and `h`, whose unit strips to `unit`, and whose status is `st`.
   */
  ghost predicate RecordFacts(name: string, v: string, mid: string, lo: string, sep: string, hi: string,
                              x: real, l: real, h: real, unit: string, st: Status) {
    && LayoutReady(name, v, mid, lo, sep, hi)
    && LiteralValue(v) == x && LiteralValue(lo) == l && LiteralValue(hi) == h && Strip(mid) == unit
    && var b := Ordered(l, h); ClassifyStatus(Some(x), Some(b.low), Some(b.high)) == st
  }

  /** `LineRecordOfLayout` with the three numbers and the unit already known. */
  lemma LayoutRecord(name: string, v: string, mid: string, lo: string, sep: string, hi: string,
                     x: real, l: real, h: real, unit: string, st: Status)
    requires RecordFacts(name, v, mid, lo, sep, hi, x, l, h, unit, st) && l < h
    ensures LineRecord(Layout(name, v, mid, lo, sep, hi))
         == Some(Row(name, x, unit, l, h, st))
  {
    LineRecordOfLayout(name, v, mid, lo, sep, hi);
  }

  /** The same when the second number is the smaller: the bounds come out swapped. */
  lemma LayoutRecordSwapped(name: string, v: string, mid: string, lo: string, sep: string, hi: string,
                            x: real, l: real, h: real, unit: string, st: Status)
    requires RecordFacts(name, v, mid, lo, sep, hi, x, l, h, unit, st) && h < l
    ensures LineRecord(Layout(name, v, mid, lo, sep, hi))
         == Some(Row(name, x, unit, h, l, st))
  {
    LineRecordOfLayout(name, v, mid, lo, sep, hi);
  }

  lemma HbLine()
    ensures Layout("Hb", "9.4", " g/dL ", "12", "", "-15") == "Hb 9.4 g/dL 12-15"
  {
  }

  lemma HbLacks(c: char)
    requires c in "tTpPvVrR"
    ensures c !in "Hb 9.4 g/dL 12-15"
  {
  }

  lemma HbLineLetters()
    ensures var line := "Hb 9.4 g/dL 12-15";
      't' !in line && 'T' !in line && 'p' !in line && 'P' !in line
      && 'v' !in line && 'V' !in line && 'r' !in line && 'R' !in line
  {
    HbLacks('t');
    HbLacks('T');
    HbLacks('p');
    HbLacks('P');
    HbLacks('v');
    HbLacks('V');
    HbLacks('r');
    HbLacks('R');
  }

  lemma HbPieces()
    ensures "Hb" != [] && IsStripped("Hb") && NoDigits("Hb")
    ensures NoDigits("") && StartsClear("" + "-15") && Separable("", "-15", true)
    ensures !IsSpace("-15"[|"-15"| - 1])
  {
  }

  lemma HbReady()
    ensures LayoutReady("Hb", "9.4", " g/dL ", "12", "", "-15")
  {
    NinePointFour();
    LayoutPiecesScan();
    HbPieces();
    GramsPerDecilitre();
    HemoglobinSeparates();
    HbLine();
    HbLineLetters();
    NoKeywordLetters("Hb 9.4 g/dL 12-15");
  }

  /**
   * A range written without spaces, "12-15", is read by the fallback's signed
   * scanner as 12 and -15; the swap then orders them, so the range becomes
   * -15 to 12 and the low value counts as within it.
   */
  lemma FallbackHyphenRangeExample()
    ensures LineRecord("Hb 9.4 g/dL 12-15")
         == Some(Row("Hb", 9.4, "g/dL", -15.0, 12.0, Within))
  {
    HbRecord();
    HbLine();
  }

  lemma HbRecord()
    ensures LineRecord(Layout("Hb", "9.4", " g/dL ", "12", "", "-15"))
         == Some(Row("Hb", 9.4, "g/dL", -15.0, 12.0, Within))
  {
    HbFacts();
    LayoutRecordSwapped("Hb", "9.4", " g/dL ", "12", "", "-15", 9.4, 12.0, -15.0, "g/dL", Within);
  }

  lemma HbFacts()
    ensures RecordFacts("Hb", "9.4", " g/dL ", "12", "", "-15", 9.4, 12.0, -15.0, "g/dL", Within)
  {
    HbReady();
    HbValues();
    GramsPerDecilitre();
    HbStatus();
  }

  lemma HbValues()
    ensures LiteralValue("9.4") == 9.4 && LiteralValue("12") == 12.0 && LiteralValue("-15") == -15.0
  {
    NinePointFour();
    LayoutPiecesScan();
  }

  lemma HbStatus()
    ensures var b := Ordered(12.0, -15.0); ClassifyStatus(Some(9.4), Some(b.low), Some(b.high)) == Within
  {
  }


  // Header rows.

  lemma ReferenceValueStripped()
    ensures Strip("Reference Value") == "Reference Value"
  {
    var s := "Reference Value";
    assert IsStripped(s) by {
      assert s[0] == 'R' && s[|s| - 1] == 'e';
    }
    StripFixesStripped(s);
  }

  lemma LowerConcat(a: string, b: string)
    ensures Lower(a + b) == Lower(a) + Lower(b)
  {
    assert forall k | 0 <= k < |a + b| :: Lower(a + b)[k] == (Lower(a) + Lower(b))[k];
  }

  lemma LowerFour(a: string, b: string, c: string, d: string)
    ensures Lower(a + b + c + d) == Lower(a) + Lower(b) + Lower(c) + Lower(d)
  {
    LowerConcat(a + b + c, d);
    LowerConcat(a + b, c);
    LowerConcat(a, b);
  }

  /** A word of lower-case letters and spaces is its own lower-case form. */
  lemma LowerCaseWord(w: string)
    requires forall k | 0 <= k < |w| :: 'a' <= w[k] <= 'z' || w[k] == ' '
    ensures Lower(w) == w
  {
    LowerFixesLowerCase(w);
  }

  lemma LowerR()
    ensures Lower("R") == "r"
  {
  }

  lemma LowerV()
    ensures Lower("V") == "v"
  {
  }

  lemma LowerEference()
    ensures Lower("eference ") == "eference "
  {
    LowerCaseWord("eference ");
  }

  lemma LowerAlue()
    ensures Lower("alue") == "alue"
  {
    LowerCaseWord("alue");
  }

  lemma ReferenceValueSplit()
    ensures "Reference Value" == "R" + "eference " + "V" + "alue"
  {
  }

  lemma ReferenceValueJoin()
    ensures "r" + "eference " + "v" + "alue" == "reference value"
  {
  }

  lemma ReferenceValueLower()
    ensures Lower("Reference Value") == "reference value"
  {
    ReferenceValueSplit();
    LowerFour("R", "eference ", "V", "alue");
    LowerR();
    LowerV();
    LowerEference();
    LowerAlue();
    ReferenceValueJoin();
  }

  lemma ReferenceValueNamesNoTest()
    ensures !MentionsAny("reference value", NameKeywords)
  {
    var h := "reference value";
    assert 't' !in h && 'i' !in h && 'm' !in h && 'p' !in h;
    forall k | 0 <= k < |NameKeywords| ensures !Contains(h, NameKeywords[k]) {
      if k == 0 { MissingCharNotContained(h, "test", 0); }
      else if k == 1 { MissingCharNotContained(h, "parameter", 0); }
      else if k == 2 { MissingCharNotContained(h, "investigation", 0); }
      else { MissingCharNotContained(h, "name", 2); }
    }
  }

  lemma ReferenceValueSaysValue()
    ensures MentionsAny("reference value", ValueKeywords)
  {
    assert OccursAt("reference value", "value", 10);
    assert Contains("reference value", ValueKeywords[1]);
  }

  /**
   * A header "Reference Value" is taken for the value column, not the range
   * column: the value keywords are tried before the range keywords.
   */
  lemma ReferenceValueHeaderExample()
    ensures HeaderRole(Some("Reference Value")) == Some(ValueColumn)
  {
    ReferenceValueStripped();
    ReferenceValueLower();
    ReferenceValueNamesNoTest();
    ReferenceValueSaysValue();
  }
}
