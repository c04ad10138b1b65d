/**
 * `build_english_text`: the English text handed to translation and speech.
 * It is every test's summary sentence, in test order, then the report's
 * overall summary, category summary and safety notice, each only when
 * non-empty, all joined by single spaces.
 */
module Demo {
  import opened Text
  import opened Engine

  /** The per-test summaries, in test order. */
  function Summaries(evs: seq<TestEvaluation>): (r: seq<string>)
    ensures |r| == |evs|
    ensures forall k | 0 <= k < |evs| :: r[k] == evs[k].summaryText
  {
    if evs == [] then [] else [evs[0].summaryText] + Summaries(evs[1..])
  }

  /** A report-level text is added only when it is not empty. */
  function IfPresent(x: string): (r: seq<string>)
    ensures x == [] ==> r == []
    ensures x != [] ==> r == [x]
  {
    if x == [] then [] else [x]
  }

  function ReportParts(report: Report): seq<string> {
    IfPresent(report.overallSummary) + IfPresent(report.categorySummary) + IfPresent(report.safetyNotice)
  }

  /** The text built from a report. */
  function ReportText(report: Report): string {
    Join(" ", Summaries(report.evaluations) + ReportParts(report))
  }

  /** `build_english_text`: the joined text and the report it was built from. */
  function BuildEnglishText(tests: seq<LabTestResult>, fraction: real -> string): (r: (string, Report))
    ensures |r.1.evaluations| == |tests|
    ensures forall i | 0 <= i < |tests| :: r.1.evaluations[i] == EvaluateTest(tests[i], fraction)
  {
    var report := EvaluateReport(tests, fraction);
    (ReportText(report), report)
  }

  // ---------------------------------------------------------------------------

  /** A report whose safety notice is one of the two fixed notices. */
  predicate HasNotice(report: Report) {
    report.safetyNotice == UrgentNotice || report.safetyNotice == RoutineNotice
  }

  /** The safety notice is never empty, so it is always the last part. */
  lemma ReportPartsEnd(report: Report)
    requires HasNotice(report)
    ensures var ps := ReportParts(report);
      |ps| > 0 && ps == ps[..|ps| - 1] + [report.safetyNotice]
  {
    assert |NoticeLead| > 0;
    assert report.safetyNotice != [];
  }

  /** The text opens with the test summaries and ends with the safety notice. */
  lemma ReportTextShape(report: Report)
    requires HasNotice(report)
    ensures var text := ReportText(report);
      && (report.evaluations != [] ==> HasPrefix(text, Join(" ", Summaries(report.evaluations)) + " "))
      && HasSuffix(text, report.safetyNotice)
  {
    ReportPartsEnd(report);
    var ss := Summaries(report.evaluations);
    var ps := ReportParts(report);
    var text := Join(" ", ss + ps);
    if report.evaluations != [] {
      JoinConcat(" ", ss, ps);
      var head := Join(" ", ss) + " ";
      assert text == head + Join(" ", ps);
      assert text[..|head|] == head;
    }
    var init := (ss + ps)[..|ss + ps| - 1];
    assert ss + ps == init + [report.safetyNotice];
    if init == [] {
      assert text == report.safetyNotice;
    } else {
      JoinAppend(" ", init, report.safetyNotice);
      var t := Join(" ", init) + " ";
      assert text == t + report.safetyNotice;
      assert text[|text| - |report.safetyNotice|..] == report.safetyNotice;
    }
  }

  /** An empty category summary adds nothing to the text, not even a space. */
  lemma ReportTextNoCategory(report: Report)
    requires HasNotice(report) && report.categorySummary == []
    ensures ReportText(report) ==
      Join(" ", Summaries(report.evaluations) + IfPresent(report.overallSummary) + [report.safetyNotice])
  {
    ReportPartsEnd(report);
    var ss := Summaries(report.evaluations);
    var os := IfPresent(report.overallSummary);
    assert ReportParts(report) == os + [report.safetyNotice];
    assert ss + (os + [report.safetyNotice]) == ss + os + [report.safetyNotice];
  }

  /** The test summaries joined, with a space before what follows; nothing when there are no tests. */
  function Lead(evs: seq<TestEvaluation>): (r: string)
    ensures evs == [] ==> r == []
    ensures evs != [] ==> HasSuffix(r, " ")
  {
    if evs == [] then [] else Join(" ", Summaries(evs)) + " "
  }

  /** The text is the lead, then the report-level parts joined by spaces. */
  lemma ReportTextLead(report: Report)
    requires HasNotice(report)
    ensures ReportText(report) == Lead(report.evaluations) + Join(" ", ReportParts(report))
  {
    ReportPartsEnd(report);
    var ss := Summaries(report.evaluations);
    var ps := ReportParts(report);
    if ss == [] {
      assert ss + ps == ps;
    } else {
      JoinConcat(" ", ss, ps);
    }
  }

  /**
   * After the lead come the overall summary, then the category summary,
   * then the notice, each report-level text only when it is non-empty.
   */
  lemma ReportTextCases(report: Report)
    requires HasNotice(report)
    ensures var lead, o, c, n := Lead(report.evaluations), report.overallSummary, report.categorySummary, report.safetyNotice;
      var text := ReportText(report);
      && (o != [] && c != [] ==> text == lead + o + " " + c + " " + n)
      && (o != [] && c == [] ==> text == lead + o + " " + n)
      && (o == [] && c != [] ==> text == lead + c + " " + n)
      && (o == [] && c == [] ==> text == lead + n)
  {
    var lead, o, c, n := Lead(report.evaluations), report.overallSummary, report.categorySummary, report.safetyNotice;
    var j := Join(" ", ReportParts(report));
    assert ReportText(report) == lead + j by {
      ReportTextLead(report);
    }
    assert n != [] by {
      ReportPartsEnd(report);
    }
    PartsJoin(o, c, n);
    LeadThen(lead, j, o, c, n);
  }

  lemma LeadThen(lead: string, j: string, o: string, c: string, n: string)
    requires o != [] && c != [] ==> j == o + " " + c + " " + n
    requires o != [] && c == [] ==> j == o + " " + n
    requires o == [] && c != [] ==> j == c + " " + n
    requires o == [] && c == [] ==> j == n
    ensures o != [] && c != [] ==> lead + j == lead + o + " " + c + " " + n
    ensures o != [] && c == [] ==> lead + j == lead + o + " " + n
    ensures o == [] && c != [] ==> lead + j == lead + c + " " + n
    ensures o == [] && c == [] ==> lead + j == lead + n
  {
  }

  /** The report-level texts joined by spaces, each of the first two only when present. */
  lemma PartsJoin(o: string, c: string, n: string)
    requires n != []
    ensures var j := Join(" ", IfPresent(o) + IfPresent(c) + IfPresent(n));
      && (o != [] && c != [] ==> j == o + " " + c + " " + n)
      && (o != [] && c == [] ==> j == o + " " + n)
      && (o == [] && c != [] ==> j == c + " " + n)
      && (o == [] && c == [] ==> j == n)
  {
    var ps := IfPresent(o) + IfPresent(c) + IfPresent(n);
    if o != [] && c != [] {
      assert ps == [o, c, n];
      assert ps[1..] == [c, n] && ps[1..][1..] == [n];
      assert Join(" ", ps[1..]) == c + " " + n;
      assert Join(" ", ps) == o + " " + (c + " " + n);
    } else if o != [] {
      assert ps == [o, n];
      assert ps[1..] == [n];
    } else if c != [] {
      assert ps == [c, n];
      assert ps[1..] == [n];
    } else {
      assert ps == [n];
    }
  }

  /**
   * The text opens with the test summaries, in test order, followed by the
   * overall summary, the category summary and the safety notice, each of
   * the first two only when non-empty; the notice is the urgent one exactly
   * when some value is critical.
   */
  lemma BuildEnglishTextShape(tests: seq<LabTestResult>, fraction: real -> string)
    ensures var (text, report) := BuildEnglishText(tests, fraction);
      && report == EvaluateReport(tests, fraction)
      && (tests != [] ==> HasPrefix(text, Join(" ", Summaries(report.evaluations)) + " "))
      && HasSuffix(text, report.safetyNotice)
      && (report.safetyNotice == UrgentNotice <==>
            exists i | 0 <= i < |tests| :: report.evaluations[i].severity == Severity.Critical)
    ensures var (text, report) := BuildEnglishText(tests, fraction);
      var lead, o, c, n := Lead(report.evaluations), report.overallSummary, report.categorySummary, report.safetyNotice;
      && (tests == [] <==> lead == [])
      && (o != [] && c != [] ==> text == lead + o + " " + c + " " + n)
      && (o != [] && c == [] ==> text == lead + o + " " + n)
      && (o == [] && c != [] ==> text == lead + c + " " + n)
      && (o == [] && c == [] ==> text == lead + n)
  {
    ReportSafetySpec(tests, fraction);
    ReportTextShape(EvaluateReport(tests, fraction));
    ReportTextCases(EvaluateReport(tests, fraction));
  }

  /** An empty category summary adds nothing to the text, not even a space. */
  lemma EmptyCategoryAddsNothing(tests: seq<LabTestResult>, fraction: real -> string)
    requires EvaluateReport(tests, fraction).categorySummary == []
    ensures var (text, report) := BuildEnglishText(tests, fraction);
      text == Join(" ", Summaries(report.evaluations) + IfPresent(report.overallSummary) + [report.safetyNotice])
  {
    ReportSafetySpec(tests, fraction);
    ReportTextNoCategory(EvaluateReport(tests, fraction));
  }
}
