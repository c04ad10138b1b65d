/**
 * The explanation engine: each lab value is classified against its reference
 * range, explained in one patient-friendly sentence, and the report as a whole
 * gets an overall summary, a per-category summary and a safety notice.
 */
module Engine {
  import opened Wrappers
  import opened Text
  import opened Decimals
  import opened Seqs

  /** The `flag` of an evaluation: "normal", "low", "high", "critical_low", "critical_high" or "unknown". */
  datatype Flag = Normal | Low | High | CriticalLow | CriticalHigh | Unknown

  /** The `severity` of an evaluation: "normal", "borderline", "abnormal", "critical" or "unknown". */
  datatype Severity = Normal | Borderline | Abnormal | Critical | Unknown

  function FlagName(f: Flag): string {
    match f
    case Normal => "normal"
    case Low => "low"
    case High => "high"
    case CriticalLow => "critical_low"
    case CriticalHigh => "critical_high"
    case Unknown => "unknown"
  }

  /** One parsed lab value; floats are exact reals. */
  datatype LabTestResult = LabTestResult(
    name: string,
    value: real,
    unit: string,
    refLow: Option<real>,
    refHigh: Option<real>,
    category: Option<string>)

  datatype Classification = Classification(
    flag: Flag,
    severity: Severity,
    recommendDoctor: bool,
    recommendUrgent: bool)

  datatype TestEvaluation = TestEvaluation(
    test: LabTestResult,
    flag: Flag,
    severity: Severity,
    summaryText: string,
    recommendDoctor: bool,
    recommendUrgent: bool)

  datatype Report = Report(
    evaluations: seq<TestEvaluation>,
    overallSummary: string,
    categorySummary: string,
    safetyNotice: string)

  /** Lower-cased test name to category; used when a test carries no category. */
  const TestCategoryMap: map<string, string> := map[
    "fasting blood sugar" := "blood sugar",
    "post prandial blood sugar" := "blood sugar",
    "random blood sugar" := "blood sugar",
    "hba1c" := "blood sugar",
    "total cholesterol" := "cholesterol",
    "ldl" := "cholesterol",
    "hdl" := "cholesterol",
    "triglycerides" := "cholesterol",
    "creatinine" := "kidney",
    "bun" := "kidney",
    "sgpt" := "liver",
    "sgot" := "liver"]

  // Severity thresholds, as ratios of the value to the violated bound.
  const CriticalLowRatio: real := 0.5
  const LowRatio: real := 0.9
  const HighRatio: real := 1.2
  const CriticalHighRatio: real := 2.0

  /** For a positive divisor, comparing a quotient is comparing a product. */
  lemma QuotientBelow(a: real, b: real, t: real)
    requires b > 0.0
    ensures a / b < t <==> a < t * b
  {
    assert a == (a / b) * b;
    if a / b < t {
      assert (a / b) * b < t * b;
    } else {
      assert (a / b) * b >= t * b;
    }
  }

  /**
   * The decision table of the engine: a missing bound gives "unknown"; a
   * value inside the closed range is normal; below the range the ratio
   * value/low decides critical (< 0.5), abnormal (< 0.9) or borderline, and
   * above it value/high decides critical (>= 2), abnormal (>= 1.2) or
   * borderline. A non-positive bound makes the ratio 0.
   */
  function ComputeFlagAndSeverity(v: real, low: Option<real>, high: Option<real>): (c: Classification)
    ensures low.None? || high.None? ==>
      c == Classification(Flag.Unknown, Severity.Unknown, true, false)
    ensures c.recommendUrgent <==> c.severity == Severity.Critical
    ensures !c.recommendDoctor <==> c.severity == Severity.Normal
    ensures c.flag == Flag.Normal <==> c.severity == Severity.Normal
    ensures c.severity == Severity.Critical <==> c.flag == Flag.CriticalLow || c.flag == Flag.CriticalHigh
    ensures low.Some? && high.Some? ==> c.severity != Severity.Unknown
    ensures low.Some? && high.Some? ==>
      (c.severity == Severity.Normal <==> low.value <= v <= high.value)
    ensures low.Some? && high.Some? ==>
      (c.flag == Flag.Low || c.flag == Flag.CriticalLow <==> v < low.value)
    ensures low.Some? && high.Some? ==>
      (c.flag == Flag.High || c.flag == Flag.CriticalHigh <==> low.value <= v && high.value < v)
  {
    if low.None? || high.None? then
      Classification(Flag.Unknown, Severity.Unknown, true, false)
    else
      var lo := low.value;
      var hi := high.value;
      if lo <= v <= hi then
        Classification(Flag.Normal, Severity.Normal, false, false)
      else if v < lo then
        var ratio := if lo > 0.0 then v / lo else 0.0;
        if ratio < CriticalLowRatio then Classification(Flag.CriticalLow, Severity.Critical, true, true)
        else if ratio < LowRatio then Classification(Flag.Low, Severity.Abnormal, true, false)
        else Classification(Flag.Low, Severity.Borderline, true, false)
      else
        var ratio := if hi > 0.0 then v / hi else 0.0;
        if ratio >= CriticalHighRatio then Classification(Flag.CriticalHigh, Severity.Critical, true, true)
        else if ratio >= HighRatio then Classification(Flag.High, Severity.Abnormal, true, false)
        else Classification(Flag.High, Severity.Borderline, true, false)
  }

  lemma QuotientBelowIfPositive(a: real, b: real, t: real)
    ensures b > 0.0 ==> (a / b < t <==> a < t * b)
  {
    if b > 0.0 {
      QuotientBelow(a, b, t);
    }
  }

  /**
   * The thresholds restated without division: below a positive lower bound
   * the value is critical under half of it and borderline from 90% of it on;
   * above a positive upper bound it is critical from twice it and borderline
   * under 120% of it; a non-positive violated bound gives critical below and
   * borderline above.
   */
  lemma ClassificationThresholds(v: real, lo: real, hi: real)
    ensures var c := ComputeFlagAndSeverity(v, Some(lo), Some(hi));
      && (v < lo && lo > 0.0 ==>
            && (c.severity == Severity.Critical <==> v < CriticalLowRatio * lo)
            && (c.severity == Severity.Borderline <==> LowRatio * lo <= v))
      && (v < lo && lo <= 0.0 ==> c.severity == Severity.Critical)
      && (lo <= v && hi < v && hi > 0.0 ==>
            && (c.severity == Severity.Critical <==> CriticalHighRatio * hi <= v)
            && (c.severity == Severity.Borderline <==> v < HighRatio * hi))
      && (lo <= v && hi < v && hi <= 0.0 ==> c.severity == Severity.Borderline)
  {
    QuotientBelowIfPositive(v, lo, CriticalLowRatio);
    QuotientBelowIfPositive(v, lo, LowRatio);
    QuotientBelowIfPositive(v, hi, CriticalHighRatio);
    QuotientBelowIfPositive(v, hi, HighRatio);
  }

  /** How far from normal a severity is. */
  function Rank(s: Severity): nat {
    match s
    case Normal => 0
    case Borderline => 1
    case Abnormal => 2
    case Critical => 3
    case Unknown => 0
  }

  /** Below a positive lower bound, a smaller value is never judged less severe. */
  lemma SeverityMonotoneBelow(v1: real, v2: real, low: real, high: real)
    requires v1 <= v2 < low && low > 0.0
    ensures Rank(ComputeFlagAndSeverity(v1, Some(low), Some(high)).severity)
         >= Rank(ComputeFlagAndSeverity(v2, Some(low), Some(high)).severity)
  {
    ClassificationThresholds(v1, low, high);
    ClassificationThresholds(v2, low, high);
  }

  /** Above a positive upper bound (and not below the lower one), a larger value is never judged less severe. */
  lemma SeverityMonotoneAbove(v1: real, v2: real, low: real, high: real)
    requires high < v1 <= v2 && low <= v1 && high > 0.0
    ensures Rank(ComputeFlagAndSeverity(v1, Some(low), Some(high)).severity)
         <= Rank(ComputeFlagAndSeverity(v2, Some(low), Some(high)).severity)
  {
    ClassificationThresholds(v1, low, high);
    ClassificationThresholds(v2, low, high);
  }

  /** The two values of the engine's own demonstration report, and a critically low one. */
  lemma DemonstrationClassifications()
    ensures ComputeFlagAndSeverity(134.0, Some(70.0), Some(110.0))
         == Classification(Flag.High, Severity.Abnormal, true, false)
    ensures ComputeFlagAndSeverity(210.0, Some(0.0), Some(200.0))
         == Classification(Flag.High, Severity.Borderline, true, false)
    ensures ComputeFlagAndSeverity(40.0, Some(100.0), Some(150.0))
         == Classification(Flag.CriticalLow, Severity.Critical, true, true)
  {
  }

  /** Python's `"low" in flag`, which picks the downward wording of a summary. */
  predicate MentionsLow(f: Flag) {
    Contains(FlagName(f), "low")
  }

  lemma MentionsLowIffBelow(f: Flag)
    ensures MentionsLow(f) <==> f == Flag.Low || f == Flag.CriticalLow
  {
    var name := FlagName(f);
    match f {
      case Low => ContainsSelf("low");
      case CriticalLow => assert name[9..12] == "low"; assert OccursAt(name, "low", 9);
      case Unknown => MissingCharNotContained(name, "low", 0);
      case _ => MissingCharNotContained(name, "low", 2);
    }
  }

  /**
   * `_fmt_num`: nothing for a missing number, an integral value without a
   * decimal point, anything else through `fraction` (Python's one-decimal
   * formatting, which is not modelled).
   */
  function FmtNum(x: Option<real>, fraction: real -> string): string {
    match x
    case None => ""
    case Some(xf) => if xf.Floor as real == xf then IntToString(xf.Floor) else fraction(xf)
  }

  /** An integral value is printed as a single integer literal that reads back as the same value. */
  lemma FmtNumIntegral(x: real, fraction: real -> string)
    requires x.Floor as real == x
    ensures var r := FmtNum(Some(x), fraction);
      FindAll(r, true) == [Match(0, |r|)] && LiteralValue(r) == x
  {
    IntToStringScansBack(x.Floor);
  }

  const UsualRange: string := "the usual healthy range"

  /** The reference range as printed in a summary: "low-high unit", "low-high", or the generic phrase. */
  function RangeText(t: LabTestResult, fraction: real -> string): string {
    var unit := Strip(t.unit);
    if t.refLow.Some? && t.refHigh.Some? then
      FmtNum(t.refLow, fraction) + "-" + FmtNum(t.refHigh, fraction) + (if unit != "" then " " + unit else "")
    else UsualRange
  }

  /** The direction words of the out-of-range summaries. */
  function Direction(s: Severity, below: bool): string {
    match s
    case Borderline => if below then "slightly below" else "slightly above"
    case Abnormal => if below then "lower" else "higher"
    case Critical => if below then "much lower" else "much higher"
    case _ => ""
  }

  const SeriousNote: string := "This can be serious."

  function Parenthesised(range: string): string {
    "(" + range + ")."
  }

  /** "Your <name> is <v> <unit>", or "Your <name> result is <v> <unit>" when there is no range to judge by. */
  function Opening(name: string, severity: Severity, v: string, unit: string): string {
    "Your " + name + " " + ((if severity == Severity.Unknown then "result is " else "is ") + v + " " + unit)
  }

  /** What follows the opening: the judgement against the range, per severity. */
  function Ending(severity: Severity, dir: string, range: string): string {
    var which := ", which is " + dir + " ";
    match severity
    case Normal => ". " + ("This is within the usual healthy range " + Parenthesised(range))
    case Borderline => which + ("the usual healthy range " + Parenthesised(range))
    case Abnormal => which + ("than the usual healthy range " + Parenthesised(range))
    case Critical => which + ("than the usual healthy range " + Parenthesised(range) + " " + SeriousNote)
    case Unknown => ". " + ("The usual healthy range is " + range + ".")
  }

  /**
   * `_make_test_summary`: the opening and the ending, stripped. The source
   * picks the downward wording with `"low" in flag`, which holds exactly for
   * the low flags (`MentionsLowIffBelow`).
   */
  function MakeTestSummary(t: LabTestResult, flag: Flag, severity: Severity, fraction: real -> string): string {
    var opening := Opening(t.name, severity, FmtNum(Some(t.value), fraction), Strip(t.unit));
    Strip(opening + Ending(severity, Direction(severity, IsLowFlag(flag)), RangeText(t, fraction)))
  }

  lemma ContainsRight(a: string, b: string, p: string)
    ensures Contains(b, p) ==> Contains(a + b, p)
  {
    if Contains(b, p) {
      var i :| 0 <= i <= |b| && OccursAt(b, p, i);
      assert (a + b)[|a| + i..|a| + i + |p|] == b[i..i + |p|];
      assert OccursAt(a + b, p, |a| + i);
    }
  }

  lemma ContainsLeft(a: string, b: string, p: string)
    ensures Contains(a, p) ==> Contains(a + b, p)
  {
    if Contains(a, p) {
      var i :| 0 <= i <= |a| && OccursAt(a, p, i);
      assert (a + b)[i..i + |p|] == a[i..i + |p|];
      assert OccursAt(a + b, p, i);
    }
  }

  lemma EndingNormal(dir: string, range: string)
    ensures var r := Ending(Severity.Normal, dir, range);
      && Contains(r, range) && r[|r| - 1] == '.'
      && HasSuffix(r, "This is within the usual healthy range " + Parenthesised(range))
  {
    var p := Parenthesised(range);
    var w := "This is within the usual healthy range " + p;
    ContainsMiddle("(", range, ").");
    ContainsRight("This is within the usual healthy range ", p, range);
    ContainsRight(". ", w, range);
    SuffixOfConcat(". ", w);
  }

  /** The borderline and abnormal endings: "..., which is <dir> ... (range)." */
  lemma EndingOutside(severity: Severity, dir: string, range: string)
    requires severity == Severity.Borderline || severity == Severity.Abnormal
    ensures var r := Ending(severity, dir, range);
      && Contains(r, range) && r[|r| - 1] == '.'
      && HasPrefix(r, ", which is " + dir + " ")
      && HasSuffix(r, Parenthesised(range))
  {
    var p := Parenthesised(range);
    var which := ", which is " + dir + " ";
    var lead := if severity == Severity.Borderline then "the usual healthy range " else "than the usual healthy range ";
    var w := lead + p;
    assert Ending(severity, dir, range) == which + w;
    ContainsMiddle("(", range, ").");
    ContainsRight(lead, p, range);
    ContainsRight(which, w, range);
    PrefixOfConcat(which, w);
    SuffixOfConcat(lead, p);
    SuffixOfRight(which, w, p);
  }

  lemma EndingCritical(dir: string, range: string)
    ensures var r := Ending(Severity.Critical, dir, range);
      && Contains(r, range) && r[|r| - 1] == '.'
      && HasPrefix(r, ", which is " + dir + " ")
      && HasSuffix(r, SeriousNote)
  {
    var p := Parenthesised(range);
    var which := ", which is " + dir + " ";
    var lead := "than the usual healthy range ";
    var w := lead + p + " " + SeriousNote;
    ContainsMiddle("(", range, ").");
    ContainsRight(lead, p, range);
    ContainsLeft(lead + p, " " + SeriousNote, range);
    assert w == lead + p + (" " + SeriousNote);
    ContainsRight(which, w, range);
    PrefixOfConcat(which, w);
    SuffixOfConcat(lead + p + " ", SeriousNote);
    SuffixOfRight(which, w, SeriousNote);
  }

  lemma EndingUnknown(dir: string, range: string)
    ensures var r := Ending(Severity.Unknown, dir, range);
      && Contains(r, range) && r[|r| - 1] == '.'
      && HasSuffix(r, "The usual healthy range is " + range + ".")
  {
    var w := "The usual healthy range is " + range + ".";
    ContainsMiddle("The usual healthy range is ", range, ".");
    ContainsRight(". ", w, range);
    SuffixOfConcat(". ", w);
  }

  /** Every summary opening starts with "Your <name> ". */
  lemma OpeningShape(name: string, severity: Severity, v: string, unit: string)
    ensures HasPrefix(Opening(name, severity, v, unit), "Your " + name + " ")
  {
    var pre := "Your " + name + " ";
    PrefixOfConcat(pre, (if severity == Severity.Unknown then "result is " else "is ") + v + " " + unit);
  }

  /** The ending of every severity closes the sentence with a full stop. */
  lemma EndingCloses(severity: Severity, dir: string, range: string)
    ensures var r := Ending(severity, dir, range); |r| > 0 && r[|r| - 1] == '.'
  {
    match severity {
      case Normal => EndingNormal(dir, range);
      case Borderline => EndingOutside(severity, dir, range);
      case Abnormal => EndingOutside(severity, dir, range);
      case Critical => EndingCritical(dir, range);
      case Unknown => EndingUnknown(dir, range);
    }
  }

  /** A sentence from 'Y' to '.' has no surrounding whitespace to strip. */
  lemma SentenceIsStripped(a: string, b: string)
    requires |a| > 0 && a[0] == 'Y' && |b| > 0 && b[|b| - 1] == '.'
    ensures Strip(a + b) == a + b
  {
    assert (a + b)[0] == 'Y' && (a + b)[|a + b| - 1] == '.';
    StripFixesStripped(a + b);
  }

  /** A summary is its opening followed by its ending; `strip()` leaves it as it is. */
  lemma SummaryIsConcatenation(t: LabTestResult, flag: Flag, severity: Severity, fraction: real -> string)
    ensures MakeTestSummary(t, flag, severity, fraction)
         == Opening(t.name, severity, FmtNum(Some(t.value), fraction), Strip(t.unit))
          + Ending(severity, Direction(severity, IsLowFlag(flag)), RangeText(t, fraction))
  {
    var range := RangeText(t, fraction);
    var dir := Direction(severity, IsLowFlag(flag));
    var opening := Opening(t.name, severity, FmtNum(Some(t.value), fraction), Strip(t.unit));
    var ending := Ending(severity, dir, range);
    EndingCloses(severity, dir, range);
    OpeningShape(t.name, severity, FmtNum(Some(t.value), fraction), Strip(t.unit));
    assert opening[0] == 'Y';
    SentenceIsStripped(opening, ending);
  }

  /** The sentence a summary ends with, per severity. */
  function Closing(severity: Severity, range: string): string {
    match severity
    case Normal => "This is within the usual healthy range " + Parenthesised(range)
    case Borderline => Parenthesised(range)
    case Abnormal => Parenthesised(range)
    case Critical => SeriousNote
    case Unknown => "The usual healthy range is " + range + "."
  }

  predicate IsOutsideSeverity(s: Severity) {
    s == Severity.Borderline || s == Severity.Abnormal || s == Severity.Critical
  }

  predicate IsLowFlag(f: Flag) {
    f == Flag.Low || f == Flag.CriticalLow
  }

  /** What every ending guarantees: the range is quoted, the closing sentence is last, the direction comes first. */
  lemma EndingShape(severity: Severity, dir: string, range: string)
    ensures var r := Ending(severity, dir, range);
      && Contains(r, range)
      && HasSuffix(r, Closing(severity, range))
      && (IsOutsideSeverity(severity) ==> HasPrefix(r, ", which is " + dir + " "))
  {
    match severity {
      case Normal => EndingNormal(dir, range);
      case Borderline => EndingOutside(severity, dir, range);
      case Abnormal => EndingOutside(severity, dir, range);
      case Critical => EndingCritical(dir, range);
      case Unknown => EndingUnknown(dir, range);
    }
  }

  /** Every summary starts with "Your <name> " and quotes the reference range. */
  lemma SummaryQuotesRange(t: LabTestResult, flag: Flag, severity: Severity, fraction: real -> string)
    ensures var r := MakeTestSummary(t, flag, severity, fraction);
      HasPrefix(r, "Your " + t.name + " ") && Contains(r, RangeText(t, fraction))
  {
    var range := RangeText(t, fraction);
    var dir := Direction(severity, IsLowFlag(flag));
    var opening := Opening(t.name, severity, FmtNum(Some(t.value), fraction), Strip(t.unit));
    var ending := Ending(severity, dir, range);
    SummaryIsConcatenation(t, flag, severity, fraction);
    OpeningShape(t.name, severity, FmtNum(Some(t.value), fraction), Strip(t.unit));
    EndingShape(severity, dir, range);
    SummaryParts(opening, ending, "Your " + t.name + " ", range, ", which is " + dir + " ");
  }

  /** An out-of-range summary is worded downward ("below", "lower") exactly for the low flags. */
  lemma SummaryDirection(t: LabTestResult, flag: Flag, severity: Severity, fraction: real -> string)
    requires IsOutsideSeverity(severity)
    ensures Contains(MakeTestSummary(t, flag, severity, fraction),
                     ", which is " + Direction(severity, IsLowFlag(flag)) + " ")
  {
    SummaryIsConcatenation(t, flag, severity, fraction);
    DirectionFollowsOpening(Opening(t.name, severity, FmtNum(Some(t.value), fraction), Strip(t.unit)),
                            severity, Direction(severity, IsLowFlag(flag)), RangeText(t, fraction));
  }

  lemma DirectionFollowsOpening(opening: string, severity: Severity, dir: string, range: string)
    requires IsOutsideSeverity(severity)
    ensures Contains(opening + Ending(severity, dir, range), ", which is " + dir + " ")
  {
    EndingShape(severity, dir, range);
    ContainsPrefixOfRight(opening, Ending(severity, dir, range), ", which is " + dir + " ");
  }

  /** Every summary ends with the closing sentence of its severity; only a critical one ends with the warning. */
  lemma SummaryClosing(t: LabTestResult, flag: Flag, severity: Severity, fraction: real -> string)
    ensures HasSuffix(MakeTestSummary(t, flag, severity, fraction), Closing(severity, RangeText(t, fraction)))
  {
    var range := RangeText(t, fraction);
    var dir := Direction(severity, IsLowFlag(flag));
    var opening := Opening(t.name, severity, FmtNum(Some(t.value), fraction), Strip(t.unit));
    var ending := Ending(severity, dir, range);
    SummaryIsConcatenation(t, flag, severity, fraction);
    EndingShape(severity, dir, range);
    SuffixOfRight(opening, ending, Closing(severity, range));
  }

  lemma ContainsPrefixOfRight(a: string, b: string, p: string)
    ensures HasPrefix(b, p) ==> Contains(a + b, p)
  {
    if HasPrefix(b, p) {
      assert (a + b)[|a|..|a| + |p|] == p;
      assert OccursAt(a + b, p, |a|);
    }
  }

  /** What the opening and the ending each guarantee carries over to the sentence. */
  lemma SummaryParts(opening: string, ending: string, pre: string, range: string, which: string)
    requires HasPrefix(opening, pre)
    ensures HasPrefix(opening + ending, pre)
    ensures Contains(ending, range) ==> Contains(opening + ending, range)
    ensures HasPrefix(ending, which) ==> Contains(opening + ending, which)
  {
    assert (opening + ending)[..|pre|] == opening[..|pre|];
    ContainsRight(opening, ending, range);
    if HasPrefix(ending, which) {
      assert (opening + ending)[|opening|..|opening| + |which|] == which;
      assert OccursAt(opening + ending, which, |opening|);
    }
  }

  /** The category recorded for a test name: `TEST_CATEGORY_MAP` looked up by the stripped, lower-cased name. */
  function LookupCategory(name: string): Option<string> {
    var key := Lower(Strip(name));
    if key in TestCategoryMap then Some(TestCategoryMap[key]) else None
  }

  /** A missing or empty category counts as absent. */
  predicate HasCategory(t: LabTestResult) {
    t.category.Some? && t.category.value != ""
  }

  /**
   * `evaluate_test`: fills in a missing category from the name, classifies the
   * value and writes the summary; no other field of the test changes.
   */
  function EvaluateTest(t: LabTestResult, fraction: real -> string): (e: TestEvaluation)
    ensures e.test == t.(category := if HasCategory(t) then t.category else LookupCategory(t.name))
    ensures Classification(e.flag, e.severity, e.recommendDoctor, e.recommendUrgent)
         == ComputeFlagAndSeverity(t.value, t.refLow, t.refHigh)
    ensures e.summaryText == MakeTestSummary(e.test, e.flag, e.severity, fraction)
  {
    var test := if HasCategory(t) then t else t.(category := LookupCategory(t.name));
    var c := ComputeFlagAndSeverity(test.value, test.refLow, test.refHigh);
    TestEvaluation(test, c.flag, c.severity, MakeTestSummary(test, c.flag, c.severity, fraction),
                   c.recommendDoctor, c.recommendUrgent)
  }

  predicate IsOutside(e: TestEvaluation) {
    e.severity == Severity.Borderline || e.severity == Severity.Abnormal || e.severity == Severity.Critical
  }

  /** Number of evaluations outside the range (borderline, abnormal or critical). */
  function CountOutside(evs: seq<TestEvaluation>): (n: nat)
    ensures n <= |evs|
  {
    if evs == [] then 0
    else (if IsOutside(evs[0]) then 1 else 0) + CountOutside(evs[1..])
  }

  function CountCritical(evs: seq<TestEvaluation>): (n: nat)
    ensures n <= CountOutside(evs)
  {
    if evs == [] then 0
    else (if evs[0].severity == Severity.Critical then 1 else 0) + CountCritical(evs[1..])
  }

  lemma {:induction false} CountOutsideZero(evs: seq<TestEvaluation>)
    ensures CountOutside(evs) == 0 <==> forall i | 0 <= i < |evs| :: !IsOutside(evs[i])
  {
    if evs != [] {
      CountOutsideZero(evs[1..]);
      if forall i | 0 <= i < |evs| :: !IsOutside(evs[i]) {
        assert forall i | 0 <= i < |evs| - 1 :: evs[1..][i] == evs[i + 1];
      } else {
        var i :| 0 <= i < |evs| && IsOutside(evs[i]);
        assert i == 0 || evs[1..][i - 1] == evs[i];
      }
    }
  }

  lemma {:induction false} CountCriticalPositive(evs: seq<TestEvaluation>)
    ensures CountCritical(evs) > 0 <==> exists i | 0 <= i < |evs| :: evs[i].severity == Severity.Critical
  {
    if evs != [] {
      CountCriticalPositive(evs[1..]);
      if exists i | 0 <= i < |evs| :: evs[i].severity == Severity.Critical {
        var i :| 0 <= i < |evs| && evs[i].severity == Severity.Critical;
        assert i == 0 || evs[1..][i - 1] == evs[i];
      } else {
        assert forall i | 0 <= i < |evs| - 1 :: evs[1..][i] == evs[i + 1];
      }
    }
  }

  const AllWithinText: string :=
    "Most of your test results are within the usual healthy range. This is generally a good sign, but always follow up with your doctor for complete interpretation."
  const UrgentTail: string := "may need urgent attention."
  const NotEmergencyText: string :=
    "These results are usually not an emergency but should be discussed with your doctor."

  /** The overall summary: reassurance, or "N out of M ..." followed by an urgency sentence. */
  function OverallSummary(evs: seq<TestEvaluation>): string {
    var nOutside := CountOutside(evs);
    if nOutside == 0 then AllWithinText
    else CountSentence(nOutside, |evs|) + " " + UrgencySentence(CountCritical(evs))
  }

  function CountSentence(nOutside: nat, n: nat): string {
    NatToString(nOutside) + " out of " + NatToString(n) + " test values are outside the usual healthy range."
  }

  function UrgencySentence(nCritical: nat): string {
    if nCritical > 0
    then NatToString(nCritical) + " value(s) are much higher or lower than normal and " + UrgentTail
    else NotEmergencyText
  }

  lemma UrgentEnding(pre: string)
    ensures pre + UrgentTail != AllWithinText
  {
    var o := pre + UrgentTail;
    assert o[|o| - 6] == UrgentTail[|UrgentTail| - 6] == 'n';
    assert AllWithinText[|AllWithinText| - 6] == 'a';
  }

  lemma RoutineEnding(pre: string)
    ensures pre + NotEmergencyText != AllWithinText
    ensures !HasSuffix(pre + NotEmergencyText, UrgentTail)
  {
    var o := pre + NotEmergencyText;
    assert o[|o| - 2] == NotEmergencyText[|NotEmergencyText| - 2] == 'r';
    assert AllWithinText[|AllWithinText| - 2] == 'n';
    assert UrgentTail[|UrgentTail| - 2] == 'n';
  }

  lemma AllWithinEnding()
    ensures !HasSuffix(AllWithinText, UrgentTail)
  {
    assert AllWithinText[|AllWithinText| - 6] == 'a';
    assert UrgentTail[|UrgentTail| - 6] == 'n';
  }

  /** Whatever precedes it, an urgency sentence never yields the reassuring text, and ends urgently exactly when something is critical. */
  lemma UrgencyEnding(pre: string, nCritical: nat)
    ensures pre + UrgencySentence(nCritical) != AllWithinText
    ensures HasSuffix(pre + UrgencySentence(nCritical), UrgentTail) <==> nCritical > 0
  {
    if nCritical > 0 {
      var mid := NatToString(nCritical) + " value(s) are much higher or lower than normal and ";
      assert pre + UrgencySentence(nCritical) == (pre + mid) + UrgentTail;
      UrgentEnding(pre + mid);
      SuffixOfConcat(pre + mid, UrgentTail);
    } else {
      RoutineEnding(pre);
    }
  }

  /** The reassuring summary is given exactly when no value is outside its range; the urgent wording exactly when one is critical. */
  lemma OverallSummaryCases(evs: seq<TestEvaluation>)
    ensures OverallSummary(evs) == AllWithinText <==> forall i | 0 <= i < |evs| :: !IsOutside(evs[i])
    ensures HasSuffix(OverallSummary(evs), UrgentTail) <==>
      exists i | 0 <= i < |evs| :: evs[i].severity == Severity.Critical
  {
    CountOutsideZero(evs);
    CountCriticalPositive(evs);
    if CountOutside(evs) != 0 {
      UrgencyEnding(CountSentence(CountOutside(evs), |evs|) + " ", CountCritical(evs));
    } else {
      AllWithinEnding();
    }
  }

  /** The category an evaluation is grouped under; a missing or empty one becomes "other". */
  function CategoryKey(e: TestEvaluation): string {
    if HasCategory(e.test) then e.test.category.value else "other"
  }

  function CategoryKeys(evs: seq<TestEvaluation>): (r: seq<string>)
    ensures |r| == |evs| && forall i | 0 <= i < |evs| :: r[i] == CategoryKey(evs[i])
  {
    if evs == [] then [] else [CategoryKey(evs[0])] + CategoryKeys(evs[1..])
  }

  /** Number of non-normal evaluations in category `c`. */
  function CountChanged(evs: seq<TestEvaluation>, c: string): nat {
    if evs == [] then 0
    else
      var here := if CategoryKey(evs[0]) == c && evs[0].severity != Severity.Normal then 1 else 0;
      here + CountChanged(evs[1..], c)
  }

  /** Some test of category `c` is not normal. */
  predicate CategoryChanged(evs: seq<TestEvaluation>, c: string) {
    exists i | 0 <= i < |evs| :: CategoryKey(evs[i]) == c && evs[i].severity != Severity.Normal
  }

  lemma {:induction false} CountChangedPositive(evs: seq<TestEvaluation>, c: string)
    ensures CountChanged(evs, c) > 0 <==> CategoryChanged(evs, c)
  {
    if evs != [] {
      CountChangedPositive(evs[1..], c);
      if CategoryChanged(evs, c) {
        var i :| 0 <= i < |evs| && CategoryKey(evs[i]) == c && evs[i].severity != Severity.Normal;
        assert i == 0 || evs[1..][i - 1] == evs[i];
      } else {
        assert forall i | 0 <= i < |evs| - 1 :: evs[1..][i] == evs[i + 1];
      }
    }
  }

  /** The categories among `cats`, other than "other", holding a non-normal value. */
  function ChangedAmong(cats: seq<string>, evs: seq<TestEvaluation>): (r: seq<string>)
    ensures forall c :: c in r ==> c in cats
  {
    if cats == [] then []
    else
      var here := if cats[0] != "other" && CountChanged(evs, cats[0]) > 0 then [cats[0]] else [];
      here + ChangedAmong(cats[1..], evs)
  }

  /** Categories with a non-normal value, each once, in the order the categories first appear. */
  function ChangedCategories(evs: seq<TestEvaluation>): seq<string> {
    ChangedAmong(Dedup(CategoryKeys(evs)), evs)
  }

  lemma {:induction false} ChangedAmongMembers(cats: seq<string>, evs: seq<TestEvaluation>)
    ensures forall c :: c in ChangedAmong(cats, evs) <==> c in cats && c != "other" && CategoryChanged(evs, c)
  {
    if cats != [] {
      ChangedAmongMembers(cats[1..], evs);
      CountChangedPositive(evs, cats[0]);
      assert forall c :: c in cats <==> c == cats[0] || c in cats[1..];
    }
  }

  lemma {:induction false} ChangedAmongOrder(cats: seq<string>, evs: seq<TestEvaluation>, keys: seq<string>)
    requires forall c :: c in cats ==> c in keys
    requires forall i, j :: 0 <= i < j < |cats| ==> FirstIndex(keys, cats[i]) < FirstIndex(keys, cats[j])
    ensures forall i, j :: 0 <= i < j < |ChangedAmong(cats, evs)| ==>
      FirstIndex(keys, ChangedAmong(cats, evs)[i]) < FirstIndex(keys, ChangedAmong(cats, evs)[j])
  {
    if cats != [] {
      var rest := ChangedAmong(cats[1..], evs);
      OrderedTail(cats, keys);
      ChangedAmongOrder(cats[1..], evs, keys);
      var here := if cats[0] != "other" && CountChanged(evs, cats[0]) > 0 then [cats[0]] else [];
      OrderedCons(ChangedAmong(cats, evs), here, rest, cats[0], keys);
    }
  }

  /** The tail of a list in key order is in key order, and its head comes before all of it. */
  lemma {:induction false} OrderedTail(cats: seq<string>, keys: seq<string>)
    requires cats != [] && forall c :: c in cats ==> c in keys
    requires forall i, j :: 0 <= i < j < |cats| ==> FirstIndex(keys, cats[i]) < FirstIndex(keys, cats[j])
    ensures cats[0] in keys && forall c :: c in cats[1..] ==> c in keys
    ensures forall i, j :: 0 <= i < j < |cats[1..]| ==> FirstIndex(keys, cats[1..][i]) < FirstIndex(keys, cats[1..][j])
    ensures forall c :: c in cats[1..] ==> FirstIndex(keys, cats[0]) < FirstIndex(keys, c)
  {
    assert forall i, j :: 0 <= i < j < |cats[1..]| ==> cats[1..][i] == cats[i + 1] && cats[1..][j] == cats[j + 1];
    forall c | c in cats[1..]
      ensures FirstIndex(keys, cats[0]) < FirstIndex(keys, c)
    {
      var j :| 0 <= j < |cats[1..]| && cats[1..][j] == c;
      assert cats[j + 1] == c;
    }
  }

  /** Putting a category that comes before all of an ordered list in front keeps it ordered. */
  lemma {:induction false} OrderedCons(xs: seq<string>, here: seq<string>, rest: seq<string>, c: string, keys: seq<string>)
    requires xs == here + rest && (here == [] || here == [c])
    requires c in keys && forall d :: d in rest ==> d in keys
    requires forall d :: d in rest ==> FirstIndex(keys, c) < FirstIndex(keys, d)
    requires forall i, j :: 0 <= i < j < |rest| ==> FirstIndex(keys, rest[i]) < FirstIndex(keys, rest[j])
    ensures forall i, j :: 0 <= i < j < |xs| ==> FirstIndex(keys, xs[i]) < FirstIndex(keys, xs[j])
  {
    forall i, j | 0 <= i < j < |here + rest|
      ensures FirstIndex(keys, (here + rest)[i]) < FirstIndex(keys, (here + rest)[j])
    {
      assert (here + rest)[j] == rest[j - |here|];
      if i >= |here| {
        assert (here + rest)[i] == rest[i - |here|];
      } else {
        assert (here + rest)[i] == c && rest[j - |here|] in rest;
      }
    }
  }

  /**
   * Filtering categories that appear in first-seen order of `keys` keeps
   * exactly the changed ones, without repeats and in the same order.
   */
  lemma ChangedAmongSpec(cats: seq<string>, evs: seq<TestEvaluation>, keys: seq<string>)
    requires forall c :: c in cats ==> c in keys
    requires forall i, j :: 0 <= i < j < |cats| ==> FirstIndex(keys, cats[i]) < FirstIndex(keys, cats[j])
    ensures forall c :: c in ChangedAmong(cats, evs) <==> c in cats && c != "other" && CategoryChanged(evs, c)
    ensures NoDuplicates(ChangedAmong(cats, evs))
    ensures forall i, j :: 0 <= i < j < |ChangedAmong(cats, evs)| ==>
      FirstIndex(keys, ChangedAmong(cats, evs)[i]) < FirstIndex(keys, ChangedAmong(cats, evs)[j])
  {
    ChangedAmongMembers(cats, evs);
    ChangedAmongOrder(cats, evs, keys);
  }

  /** Which categories the category summary names, without repeats and in first-seen order. */
  lemma ChangedCategoriesSpec(evs: seq<TestEvaluation>)
    ensures forall c :: c in ChangedCategories(evs) <==>
      c != "other" && CategoryChanged(evs, c)
    ensures NoDuplicates(ChangedCategories(evs))
    ensures forall i, j :: 0 <= i < j < |ChangedCategories(evs)| ==>
      FirstIndex(CategoryKeys(evs), ChangedCategories(evs)[i]) < FirstIndex(CategoryKeys(evs), ChangedCategories(evs)[j])
  {
    var keys := CategoryKeys(evs);
    DedupOrder(keys);
    ChangedAmongSpec(Dedup(keys), evs, keys);
    forall c | c != "other" && CategoryChanged(evs, c) ensures c in keys {
      var i :| 0 <= i < |evs| && CategoryKey(evs[i]) == c && evs[i].severity != Severity.Normal;
      assert keys[i] == c;
    }
  }

  function ChangeSentence(c: string): string {
    "There are some changes related to " + c + "."
  }

  function ChangeSentences(cats: seq<string>): (r: seq<string>)
    ensures |r| == |cats| && forall i | 0 <= i < |cats| :: r[i] == ChangeSentence(cats[i])
  {
    if cats == [] then [] else [ChangeSentence(cats[0])] + ChangeSentences(cats[1..])
  }

  /** Sentences that start and end with a visible character joined by single spaces need no strip. */
  lemma {:induction false} JoinOfStripped(parts: seq<string>)
    requires forall i | 0 <= i < |parts| :: |parts[i]| > 0 && IsStripped(parts[i])
    ensures IsStripped(Join(" ", parts))
    ensures |parts| > 0 ==> |Join(" ", parts)| > 0
  {
    if |parts| > 1 {
      JoinOfStripped(parts[1..]);
      var j := Join(" ", parts[1..]);
      assert Join(" ", parts) == parts[0] + " " + j;
    }
  }

  const NoticeLead: string := "This explanation is for information only and is not a diagnosis. "
  const UrgentNotice: string := NoticeLead
    + "Some values look very abnormal. If you feel unwell, have chest pain, severe breathlessness, confusion, or any worrying symptoms, please seek urgent medical care or contact your doctor immediately."
  const RoutineNotice: string := NoticeLead
    + "Do not start, stop, or change any medicines based on this report alone. Please discuss your results with your doctor."

  /** The safety notice: the urgent wording exactly when some evaluation recommends urgent care. */
  function SafetyNotice(evs: seq<TestEvaluation>): (r: string)
    ensures r == UrgentNotice || r == RoutineNotice
  {
    if exists i | 0 <= i < |evs| :: evs[i].recommendUrgent then UrgentNotice else RoutineNotice
  }

  /** An evaluation recommends urgent care exactly when it is critical. */
  predicate UrgentIffCritical(e: TestEvaluation) {
    e.recommendUrgent <==> e.severity == Severity.Critical
  }

  lemma SafetyNoticeUrgent(evs: seq<TestEvaluation>)
    requires forall i | 0 <= i < |evs| :: UrgentIffCritical(evs[i])
    ensures SafetyNotice(evs) == UrgentNotice <==> exists i | 0 <= i < |evs| :: evs[i].severity == Severity.Critical
  {
    assert |UrgentNotice| != |RoutineNotice|;
  }

  /** The category summary: one sentence per changed category, separated by single spaces. */
  function CategorySummary(evs: seq<TestEvaluation>): string {
    Strip(Join(" ", ChangeSentences(ChangedCategories(evs))))
  }

  /** Joining the sentences already gives a stripped text, empty exactly when no category changed. */
  lemma CategorySummarySpec(evs: seq<TestEvaluation>)
    ensures CategorySummary(evs) == Join(" ", ChangeSentences(ChangedCategories(evs)))
    ensures CategorySummary(evs) == [] <==> forall c :: !(c != "other" && CategoryChanged(evs, c))
  {
    var cats := ChangedCategories(evs);
    ChangedCategoriesSpec(evs);
    var sentences := ChangeSentences(cats);
    forall i | 0 <= i < |sentences| ensures |sentences[i]| > 0 && IsStripped(sentences[i]) {
      var sentence := sentences[i];
      assert sentence == "There are some changes related to " + cats[i] + ".";
      assert sentence[0] == 'T';
    }
    JoinOfStripped(sentences);
    StripFixesStripped(Join(" ", sentences));
    assert cats != [] ==> cats[0] in cats;
  }

  function EvaluateAll(tests: seq<LabTestResult>, fraction: real -> string): (r: seq<TestEvaluation>)
    ensures |r| == |tests| && forall i | 0 <= i < |tests| :: r[i] == EvaluateTest(tests[i], fraction)
  {
    seq(|tests|, i requires 0 <= i < |tests| => EvaluateTest(tests[i], fraction))
  }

  /** Every evaluation recommends urgent care exactly when it is critical. */
  lemma EvaluateAllUrgent(tests: seq<LabTestResult>, fraction: real -> string)
    ensures forall i | 0 <= i < |tests| :: UrgentIffCritical(EvaluateAll(tests, fraction)[i])
  {
    var evs := EvaluateAll(tests, fraction);
    forall i | 0 <= i < |tests| ensures UrgentIffCritical(evs[i]) {
      EvaluateTestUrgent(tests[i], fraction);
    }
  }

  lemma EvaluateTestUrgent(t: LabTestResult, fraction: real -> string)
    ensures UrgentIffCritical(EvaluateTest(t, fraction))
  {
    var e := EvaluateTest(t, fraction);
    var c := Classification(e.flag, e.severity, e.recommendDoctor, e.recommendUrgent);
    assert c.recommendUrgent == e.recommendUrgent && c.severity == e.severity;
  }

  /** `evaluate_report`: every test evaluated in order, plus the three report-level texts. */
  function EvaluateReport(tests: seq<LabTestResult>, fraction: real -> string): (r: Report)
    ensures |r.evaluations| == |tests|
    ensures forall i | 0 <= i < |tests| :: r.evaluations[i] == EvaluateTest(tests[i], fraction)
  {
    var evs := EvaluateAll(tests, fraction);
    Report(evs, OverallSummary(evs), CategorySummary(evs), SafetyNotice(evs))
  }

  /** The overall summary of a report reassures exactly when nothing is outside its range and urges attention exactly when something is critical. */
  lemma ReportOverallSpec(tests: seq<LabTestResult>, fraction: real -> string)
    ensures var r := EvaluateReport(tests, fraction);
      && (r.overallSummary == AllWithinText <==>
            forall i | 0 <= i < |tests| :: !IsOutside(r.evaluations[i]))
      && (HasSuffix(r.overallSummary, UrgentTail) <==>
            exists i | 0 <= i < |tests| :: r.evaluations[i].severity == Severity.Critical)
  {
    OverallSummaryCases(EvaluateAll(tests, fraction));
  }

  /** The category summary of a report names each changed category once, in first-seen order. */
  lemma ReportCategorySpec(tests: seq<LabTestResult>, fraction: real -> string)
    ensures var r := EvaluateReport(tests, fraction);
      && r.categorySummary == Join(" ", ChangeSentences(ChangedCategories(r.evaluations)))
      && (r.categorySummary == [] <==> forall c :: !(c != "other" && CategoryChanged(r.evaluations, c)))
  {
    CategorySummarySpec(EvaluateAll(tests, fraction));
  }

  /** A report carries the urgent safety notice exactly when some value is critical, and the routine one otherwise. */
  lemma ReportSafetySpec(tests: seq<LabTestResult>, fraction: real -> string)
    ensures var r := EvaluateReport(tests, fraction);
      && (r.safetyNotice == UrgentNotice || r.safetyNotice == RoutineNotice)
      && (r.safetyNotice == UrgentNotice <==>
            exists i | 0 <= i < |tests| :: r.evaluations[i].severity == Severity.Critical)
  {
    EvaluateAllUrgent(tests, fraction);
    SafetyNoticeUrgent(EvaluateAll(tests, fraction));
  }
}
