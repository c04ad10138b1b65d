/**
 * `generate_english_summary`: a plain English summary of the rows whose
 * status is "below" or "above", with a fixed heading, one line per such
 * row and a closing disclaimer. The table is a sequence of parsed rows;
 * how a number is printed is a parameter.
 */
module Summary {
  import opened Text
  import opened Parser

  const AllWithinLine: string :=
    "All the test values in your report are within the reference ranges printed on the lab report."
  const Heading: string :=
    "Here is a summary of the test results that are outside the reference ranges shown on your lab report:\n"
  const Disclaimer: string :=
    "\nThis summary is based only on the values and reference ranges printed on your lab report. It does not provide any medical advice. Please consult your doctor at Sanjivani Hospital to understand your results and any next steps."
  const BelowText: string := "This is below the reference range."
  const AboveText: string := "This is above the reference range."

  /** The rows the summary lists. */
  predicate Listed(r: Row) {
    r.status == Below || r.status == Above
  }

  /** `df[df["Status"].isin(["below", "above"])]`, in row order. */
  function Abnormal(rows: seq<Row>): (r: seq<Row>)
    ensures |r| <= |rows|
    ensures forall x :: x in r <==> x in rows && Listed(x)
    decreases |rows|
  {
    if rows == [] then []
    else (if Listed(rows[0]) then [rows[0]] else []) + Abnormal(rows[1..])
  }

  function StatusText(s: Status): string {
    match s
    case Below => BelowText
    case Above => AboveText
    case _ => []
  }

  /** The line of one listed row; `num` prints a number. */
  function RowLine(r: Row, num: real -> string): string {
    "- " + r.testName + ": your value is " + num(r.value) + " " + r.unit
      + ". The reference range on your report is " + num(r.refLow) + "–" + num(r.refHigh) + " " + r.unit
      + ". " + StatusText(r.status)
  }

  /** The loop over the filtered rows; a row of any other status would be skipped. */
  function RowLines(rows: seq<Row>, num: real -> string): (r: seq<string>)
    decreases |rows|
  {
    if rows == [] then []
    else if Listed(rows[0]) then [RowLine(rows[0], num)] + RowLines(rows[1..], num)
    else RowLines(rows[1..], num)
  }

  /** `generate_english_summary` */
  function GenerateEnglishSummary(rows: seq<Row>, num: real -> string): string {
    var listed := Abnormal(rows);
    var lines := if listed == [] then [AllWithinLine] else [Heading] + RowLines(listed, num);
    Join("\n", lines + [Disclaimer])
  }

  // ---------------------------------------------------------------------------

  /** The filter keeps the listed rows in order and drops only the others. */
  lemma AbnormalOrder(rows: seq<Row>)
    ensures (forall k | 0 <= k < |rows| :: Listed(rows[k])) ==> Abnormal(rows) == rows
    ensures (forall k | 0 <= k < |rows| :: !Listed(rows[k])) <==> Abnormal(rows) == []
  {
    if forall k | 0 <= k < |rows| :: Listed(rows[k]) {
      AbnormalAllListed(rows);
    }
    var r := Abnormal(rows);
    if r != [] {
      assert r[0] in r;
    }
    if exists k | 0 <= k < |rows| :: Listed(rows[k]) {
      var k :| 0 <= k < |rows| && Listed(rows[k]);
      assert rows[k] in r;
    }
  }

  lemma {:induction false} AbnormalAllListed(rows: seq<Row>)
    requires forall k | 0 <= k < |rows| :: Listed(rows[k])
    ensures Abnormal(rows) == rows
    decreases |rows|
  {
    if rows != [] {
      assert forall k | 0 <= k < |rows| - 1 :: rows[1..][k] == rows[k + 1];
      AbnormalAllListed(rows[1..]);
      assert rows == [rows[0]] + rows[1..];
    }
  }

  /** The filter works row by row: filtering two tables one after the other is filtering them joined. */
  lemma {:induction false} AbnormalConcat(a: seq<Row>, b: seq<Row>)
    ensures Abnormal(a + b) == Abnormal(a) + Abnormal(b)
    decreases |a|
  {
    if a != [] {
      assert (a + b)[1..] == a[1..] + b;
      AbnormalConcat(a[1..], b);
    } else {
      assert a + b == b;
    }
  }

  /** One row is kept exactly when it is listed. */
  lemma AbnormalOne(x: Row)
    ensures Abnormal([x]) == if Listed(x) then [x] else []
  {
    assert [x][1..] == [];
  }

  /** Reading the table up to row `k` inclusive appends row `k` to the filtered rows when it is listed, and nothing otherwise. */
  predicate FilterStep(rows: seq<Row>, k: nat)
    requires k < |rows|
  {
    Abnormal(rows[..k + 1]) == Abnormal(rows[..k]) + (if Listed(rows[k]) then [rows[k]] else [])
  }

  lemma FilterSteps(rows: seq<Row>)
    ensures forall k | 0 <= k < |rows| :: FilterStep(rows, k)
  {
    forall k | 0 <= k < |rows| ensures FilterStep(rows, k) {
      assert rows[..k + 1] == rows[..k] + [rows[k]];
      AbnormalConcat(rows[..k], [rows[k]]);
      AbnormalOne(rows[k]);
    }
  }

  /** Every listed row gets one line, in order, saying whether it is below or above. */
  lemma RowLinesSpec(rows: seq<Row>, num: real -> string)
    requires forall k | 0 <= k < |rows| :: Listed(rows[k])
    ensures |RowLines(rows, num)| == |rows|
    ensures forall k | 0 <= k < |rows| :: RowLines(rows, num)[k] == RowLine(rows[k], num)
    ensures forall k | 0 <= k < |rows| ::
      HasSuffix(RowLines(rows, num)[k], if rows[k].status == Below then BelowText else AboveText)
  {
    RowLinesOneEach(rows, num);
    forall k | 0 <= k < |rows|
      ensures HasSuffix(RowLine(rows[k], num), if rows[k].status == Below then BelowText else AboveText)
    {
      RowLineEnds(rows[k], num);
    }
  }

  lemma {:induction false} RowLinesOneEach(rows: seq<Row>, num: real -> string)
    requires forall k | 0 <= k < |rows| :: Listed(rows[k])
    ensures |RowLines(rows, num)| == |rows|
    ensures forall k | 0 <= k < |rows| :: RowLines(rows, num)[k] == RowLine(rows[k], num)
    decreases |rows|
  {
    if rows != [] {
      assert forall k | 0 <= k < |rows| - 1 :: rows[1..][k] == rows[k + 1];
      RowLinesOneEach(rows[1..], num);
      RowLinesStep(rows, num);
    }
  }

  lemma RowLinesStep(rows: seq<Row>, num: real -> string)
    requires rows != [] && Listed(rows[0])
    requires |RowLines(rows[1..], num)| == |rows| - 1
    requires forall k | 0 <= k < |rows| - 1 :: RowLines(rows[1..], num)[k] == RowLine(rows[1..][k], num)
    ensures |RowLines(rows, num)| == |rows|
    ensures forall k | 0 <= k < |rows| :: RowLines(rows, num)[k] == RowLine(rows[k], num)
  {
    var rest := RowLines(rows[1..], num);
    assert RowLines(rows, num) == [RowLine(rows[0], num)] + rest;
    forall k | 0 < k < |rows| ensures RowLines(rows, num)[k] == RowLine(rows[k], num) {
      assert rows[1..][k - 1] == rows[k];
    }
  }

  lemma RowLineEnds(r: Row, num: real -> string)
    requires Listed(r)
    ensures HasSuffix(RowLine(r, num), if r.status == Below then BelowText else AboveText)
  {
    var t := StatusText(r.status);
    var l := RowLine(r, num);
    assert l == l[..|l| - |t|] + t;
  }

  /** With nothing below or above its range, the summary is the reassurance and the disclaimer. */
  lemma SummaryAllWithin(rows: seq<Row>, num: real -> string)
    ensures (forall k | 0 <= k < |rows| :: !Listed(rows[k])) <==>
      GenerateEnglishSummary(rows, num) == AllWithinLine + "\n" + Disclaimer
  {
    AbnormalOrder(rows);
    var s := GenerateEnglishSummary(rows, num);
    var listed := Abnormal(rows);
    if listed != [] {
      var lines := [Heading] + RowLines(listed, num) + [Disclaimer];
      assert lines[0] == Heading;
      JoinStart(lines, Heading);
      OpeningLinesDiffer();
      assert s[92] == Heading[92];
      assert (AllWithinLine + "\n" + Disclaimer)[92] == AllWithinLine[92];
    } else {
      var lines := [AllWithinLine] + [Disclaimer];
      assert lines[1..] == [Disclaimer];
      assert Join("\n", lines) == AllWithinLine + "\n" + Join("\n", lines[1..]);
    }
  }

  /** A text joined from two or more lines starts with the first line. */
  lemma JoinStart(lines: seq<string>, first: string)
    requires |lines| >= 2 && lines[0] == first
    ensures HasPrefix(Join("\n", lines), first)
  {
    assert Join("\n", lines) == first + ("\n" + Join("\n", lines[1..]));
  }

  /** The reassurance has ended with its full stop where the heading still runs on. */
  lemma OpeningLinesDiffer()
    ensures |AllWithinLine| == 93 && |Heading| == 102
    ensures AllWithinLine[92] == '.' && Heading[92] == 'b'
  {
  }

  /**
   * Otherwise the summary is the heading, one line per listed row, and the
   * disclaimer, joined by line breaks. The listed rows are the table's rows
   * read in order, each one taken exactly when it is below or above.
   */
  lemma SummaryListsRows(rows: seq<Row>, num: real -> string)
    requires exists k | 0 <= k < |rows| :: Listed(rows[k])
    ensures var listed := Abnormal(rows); var ls := RowLines(listed, num);
      && |ls| == |listed|
      && (forall k | 0 <= k < |listed| :: ls[k] == RowLine(listed[k], num))
      && GenerateEnglishSummary(rows, num) == Join("\n", [Heading] + ls + [Disclaimer])
    ensures Abnormal(rows[..0]) == [] && Abnormal(rows[..|rows|]) == Abnormal(rows)
    ensures forall k | 0 <= k < |rows| :: FilterStep(rows, k)
  {
    SummaryLines(rows, num);
    assert rows[..|rows|] == rows;
    FilterSteps(rows);
  }

  lemma SummaryLines(rows: seq<Row>, num: real -> string)
    requires exists k | 0 <= k < |rows| :: Listed(rows[k])
    ensures var listed := Abnormal(rows); var ls := RowLines(listed, num);
      && |ls| == |listed|
      && (forall k | 0 <= k < |listed| :: ls[k] == RowLine(listed[k], num))
      && GenerateEnglishSummary(rows, num) == Join("\n", [Heading] + ls + [Disclaimer])
  {
    AbnormalOrder(rows);
    var listed := Abnormal(rows);
    assert forall k | 0 <= k < |listed| :: listed[k] in listed;
    RowLinesSpec(listed, num);
  }

  /** The summary always ends with the disclaimer. */
  lemma SummaryEndsWithDisclaimer(rows: seq<Row>, num: real -> string)
    ensures HasSuffix(GenerateEnglishSummary(rows, num), Disclaimer)
  {
    var listed := Abnormal(rows);
    var lines := if listed == [] then [AllWithinLine] else [Heading] + RowLines(listed, num);
    JoinAppend("\n", lines, Disclaimer);
    var s := Join("\n", lines) + "\n" + Disclaimer;
    assert s[|s| - |Disclaimer|..] == Disclaimer;
  }
}
