/**
 * The lab-report parser: cell normalisers, header mapping, the status
 * comparison, the row loop over already-extracted page tables, and the
 * line-based fallback used when no table yields a row.
 */
module Parser {
  import opened Wrappers
  import opened Text
  import opened Decimals

  /** A table cell as the PDF reader returns it: text, or nothing. */
  type Cell = Option<string>

  /** A page table: its first row holds the headers. */
  type Table = seq<seq<Cell>>

  /** One page of the report: its text (when the reader found any) and its tables. */
  datatype Page = Page(text: Option<string>, tables: seq<Table>)

  /** A reference range as parsed, low bound first as written. */
  datatype Bounds = Bounds(low: real, high: real)

  datatype Status = Below | Above | Within | Unknown

  /** The status strings of the "Status" column. */
  function StatusName(s: Status): string {
    match s
    case Below => "below"
    case Above => "above"
    case Within => "within"
    case Unknown => "unknown"
  }

  /** One extracted test: the columns Test Name, Value, Unit, Ref Low, Ref High and Status. */
  datatype Row = Row(testName: string, value: real, unit: string, refLow: real, refHigh: real, status: Status)

  /** The parse of a whole report: the test rows and the page texts joined by newlines. */
  datatype Extraction = Extraction(rows: seq<Row>, fullText: string)

  // ---------------------------------------------------------------------------
  // Cell normalisers.

  /** En dash, em dash and the minus sign all become '-'. */
  function NormalizeDash(c: char): char {
    if c == '–' || c == '—' || c == '−' then '-' else c
  }

  predicate IsFancyDash(c: char) {
    c == '–' || c == '—' || c == '−'
  }

  function NormalizeDashes(s: string): (r: string)
    ensures |r| == |s|
    ensures forall k :: 0 <= k < |s| ==> r[k] == NormalizeDash(s[k])
  {
    if s == [] then [] else [NormalizeDash(s[0])] + NormalizeDashes(s[1..])
  }

  /**
   * After normalising, no dash variant is left, each one has become '-' in
   * its own position, and every other character is untouched.
   */
  lemma NormalizeDashesSpec(s: string)
    ensures |NormalizeDashes(s)| == |s|
    ensures forall k | 0 <= k < |s| :: !IsFancyDash(NormalizeDashes(s)[k])
    ensures forall k | 0 <= k < |s| :: NormalizeDashes(s)[k] == (if IsFancyDash(s[k]) then '-' else s[k])
  {
  }

  /**
   * The character map agrees with the report's own formulation: three
   * successive substring replacements, en dash, then em dash, then minus sign.
   */
  lemma {:induction false} NormalizeDashesAsReplace(s: string)
    ensures NormalizeDashes(s) == Replace(Replace(Replace(s, "–", "-"), "—", "-"), "−", "-")
  {
    ReplaceChar(s, '–', '-');
    ReplaceChar(Replace(s, "–", "-"), '—', '-');
    ReplaceChar(Replace(Replace(s, "–", "-"), "—", "-"), '−', '-');
  }

  lemma NormalizeDashesOfPlain(s: string)
    requires forall k | 0 <= k < |s| :: !IsFancyDash(s[k])
    ensures NormalizeDashes(s) == s
  {
  }

  /**
   * `parse_range`: the first two unsigned decimals of the cell, in the order
   * written; nothing for a missing cell or fewer than two numbers.
   */
  function ParseRange(cell: Cell): (r: Option<Bounds>)
    ensures cell.None? ==> r.None?
  {
    match cell
    case None => None
    case Some(c) =>
      var text := NormalizeDashes(c);
      var nums := FindAll(text, false);
      if |nums| >= 2 then Some(Bounds(MatchValue(text, nums[0]), MatchValue(text, nums[1]))) else None
  }

  /** `parse_value`: the first signed decimal of the cell (the leftmost match); nothing when there is none. */
  function ParseValue(cell: Cell): (r: Option<real>)
    ensures cell.None? ==> r.None?
  {
    match cell
    case None => None
    case Some(c) =>
      var text := NormalizeDashes(c);
      var nums := FindAll(text, true);
      if |nums| > 0 then Some(MatchValue(text, nums[0])) else None
  }

  predicate NoDigits(s: string) {
    forall k | 0 <= k < |s| :: !IsDigit(s[k])
  }

  predicate NoFancyDash(s: string) {
    forall k | 0 <= k < |s| :: !IsFancyDash(s[k])
  }

  /** Text that cannot continue a number written just before it. */
  predicate StartsClear(s: string) {
    s == [] || (!IsDigit(s[0]) && s[0] != '.')
  }

  /** The literals of `a + b` when `a` is a single literal and `b` cannot continue it. */
  lemma LiteralThenRest(a: string, b: string, signed: bool)
    requires FindAll(a, signed) == [Match(0, |a|)] && StartsClear(b)
    ensures |FindAll(a + b, signed)| >= 1
    ensures FindAll(a + b, signed)[0] == Match(0, |a|)
    ensures FindAll(a + b, signed)[1..] == Shift(FindAll(b, signed), |a|)
  {
    FindAllConcat(a, b, signed);
  }

  /** The literals of `a + b` when `a` holds no digit and cannot run into `b`. */
  lemma NoiseThenRest(a: string, b: string, signed: bool)
    requires NoDigits(a) && Separable(a, b, signed)
    ensures FindAll(a + b, signed) == Shift(FindAll(b, signed), |a|)
  {
    NoDigitsNoLiterals(a, 0, signed);
    FindAllConcat(a, b, signed);
  }

  lemma RangeLiterals(a: string, sep: string, b: string, unit: string)
    requires FindAll(a, false) == [Match(0, |a|)] && FindAll(b, false) == [Match(0, |b|)]
    requires sep != [] && NoDigits(sep) && sep[0] != '.' && sep[|sep| - 1] != '.'
    requires StartsClear(unit)
    ensures var nums := FindAll(a + sep + b + unit, false);
      && |nums| >= 2
      && nums[0] == Match(0, |a|)
      && nums[1] == Match(|a| + |sep|, |a| + |sep| + |b|)
  {
    assert a + sep + b + unit == a + (sep + (b + unit));
    LiteralThenRest(b, unit, false);
    NoiseThenRest(sep, b + unit, false);
    var mid := FindAll(sep + (b + unit), false);
    assert mid[0] == Match(|sep|, |sep| + |b|);
    LiteralThenRest(a, sep + (b + unit), false);
  }

  lemma RangeTexts(a: string, sep: string, b: string, unit: string)
    requires FindAll(a, false) == [Match(0, |a|)] && FindAll(b, false) == [Match(0, |b|)]
    requires sep != [] && NoDigits(sep) && sep[0] != '.' && sep[|sep| - 1] != '.'
    requires StartsClear(unit)
    ensures var s := a + sep + b + unit;
      var nums := FindAll(s, false);
      |nums| >= 2 && MatchText(s, nums[0]) == a && MatchText(s, nums[1]) == b
  {
    RangeLiterals(a, sep, b, unit);
    var s := a + sep + b + unit;
    assert s[0..|a|] == a;
    assert s[|a| + |sep|..|a| + |sep| + |b|] == b;
  }

  /**
   * A range cell written "low sep high unit" with natural bounds and a
   * separator without digits reads back as those bounds, in that order.
   */
  lemma ParseRangeOfRendered(lo: nat, hi: nat, sep: string, unit: string)
    requires sep != [] && NoDigits(sep) && sep[0] != '.' && sep[|sep| - 1] != '.'
    requires StartsClear(unit)
    requires NoFancyDash(sep) && NoFancyDash(unit)
    ensures ParseRange(Some(NatToString(lo) + sep + NatToString(hi) + unit)) == Some(Bounds(lo as real, hi as real))
  {
    var a := NatToString(lo);
    var b := NatToString(hi);
    RangeIsPlain(a, sep, b, unit);
    NatToStringScansBack(lo, false);
    NatToStringScansBack(hi, false);
    RangeTexts(a, sep, b, unit);
  }

  lemma RangeIsPlain(a: string, sep: string, b: string, unit: string)
    requires AllDigits(a) && AllDigits(b) && NoFancyDash(sep) && NoFancyDash(unit)
    ensures NormalizeDashes(a + sep + b + unit) == a + sep + b + unit
  {
    NormalizeDashesOfPlain(a + sep + b + unit);
  }

  /** A value cell written "prefix integer unit" reads back as that integer. */
  lemma ParseValueOfRendered(prefix: string, i: int, unit: string)
    requires NoDigits(prefix) && Separable(prefix, IntToString(i) + unit, true)
    requires StartsClear(unit)
    requires NoFancyDash(prefix) && NoFancyDash(unit)
    ensures ParseValue(Some(prefix + IntToString(i) + unit)) == Some(i as real)
  {
    var a := IntToString(i);
    var s := prefix + a + unit;
    RenderedIsPlain(prefix, i, unit);
    RenderedFirstLiteral(prefix, i, unit);
    IntToStringScansBack(i);
    assert MatchText(s, FindAll(s, true)[0]) == a;
  }

  lemma RenderedIsPlain(prefix: string, i: int, unit: string)
    requires NoFancyDash(prefix) && NoFancyDash(unit)
    ensures NormalizeDashes(prefix + IntToString(i) + unit) == prefix + IntToString(i) + unit
  {
    var a := IntToString(i);
    assert NoFancyDash(a) by {
      assert forall k | 0 <= k < |a| :: IsDigit(a[k]) || a[k] == '-';
    }
    NormalizeDashesOfPlain(prefix + a + unit);
  }

  lemma RenderedFirstLiteral(prefix: string, i: int, unit: string)
    requires NoDigits(prefix) && Separable(prefix, IntToString(i) + unit, true)
    requires StartsClear(unit)
    ensures var s := prefix + IntToString(i) + unit;
      |FindAll(s, true)| > 0 && FindAll(s, true)[0] == Match(|prefix|, |prefix| + |IntToString(i)|)
  {
    var a := IntToString(i);
    assert prefix + a + unit == prefix + (a + unit);
    IntToStringScansBack(i);
    LiteralThenRest(a, unit, true);
    NoiseThenRest(prefix, a + unit, true);
  }

  // ---------------------------------------------------------------------------
  // Header mapping.

  datatype Role = NameColumn | ValueColumn | UnitColumn | RangeColumn

  const NameKeywords: seq<string> := ["test", "parameter", "investigation", "name"]
  const ValueKeywords: seq<string> := ["result", "value", "observed"]
  const UnitKeywords: seq<string> := ["unit", "units"]
  const RangeKeywords: seq<string> := ["ref", "range", "normal"]

  /** Python's `any(k in s for k in keywords)`. */
  predicate MentionsAny(s: string, keywords: seq<string>) {
    exists k | 0 <= k < |keywords| :: Contains(s, keywords[k])
  }

  /** The role a header cell claims: the first keyword group its stripped, lower-cased text mentions. */
  function HeaderRole(h: Cell): Option<Role> {
    match h
    case None => None
    case Some(text) =>
      if text == "" then None
      else
        var low := Lower(Strip(text));
        if MentionsAny(low, NameKeywords) then Some(NameColumn)
        else if MentionsAny(low, ValueKeywords) then Some(ValueColumn)
        else if MentionsAny(low, UnitKeywords) then Some(UnitColumn)
        else if MentionsAny(low, RangeKeywords) then Some(RangeColumn)
        else None
  }

  /** The canonical column indices found for a table. */
  datatype Columns = Columns(testName: Option<nat>, value: Option<nat>, unit: Option<nat>, refRange: Option<nat>)

  function Column(cols: Columns, role: Role): Option<nat> {
    match role
    case NameColumn => cols.testName
    case ValueColumn => cols.value
    case UnitColumn => cols.unit
    case RangeColumn => cols.refRange
  }

  /** Records `idx` for `role` unless that role already has a column. */
  function Claim(cols: Columns, role: Role, idx: nat): (r: Columns)
    ensures Column(r, role) == (if Column(cols, role).Some? then Column(cols, role) else Some(idx))
    ensures forall other :: other != role ==> Column(r, other) == Column(cols, other)
  {
    if Column(cols, role).Some? then cols
    else match role
      case NameColumn => cols.(testName := Some(idx))
      case ValueColumn => cols.(value := Some(idx))
      case UnitColumn => cols.(unit := Some(idx))
      case RangeColumn => cols.(refRange := Some(idx))
  }

  /** The role each header claims, in column order. */
  function HeaderRoles(headers: seq<Cell>): (r: seq<Option<Role>>)
    ensures |r| == |headers|
    ensures forall k :: 0 <= k < |r| ==> r[k] == HeaderRole(headers[k])
  {
    seq(|headers|, k requires 0 <= k < |headers| => HeaderRole(headers[k]))
  }

  /** The loop of `map_headers` from column `i`, over the roles the headers claim. */
  function MapRolesFrom(roles: seq<Option<Role>>, i: nat, cols: Columns): Columns
    requires i <= |roles|
    decreases |roles| - i
  {
    if i == |roles| then cols
    else
      var next := match roles[i] case None => cols case Some(role) => Claim(cols, role, i);
      MapRolesFrom(roles, i + 1, next)
  }

  /** `map_headers`: each role gets the first header index that claims it. */
  function MapHeaders(headers: seq<Cell>): Columns {
    MapRolesFrom(HeaderRoles(headers), 0, Columns(None, None, None, None))
  }

  /** `i` is the first header index claiming `role`. */
  predicate FirstWithRole(headers: seq<Cell>, role: Role, i: nat) {
    && i < |headers|
    && HeaderRole(headers[i]) == Some(role)
    && forall j | 0 <= j < i :: HeaderRole(headers[j]) != Some(role)
  }

  /** After the first `i` roles, `c` is the first of them equal to `role`, if any. */
  predicate ClaimedSoFar(roles: seq<Option<Role>>, i: nat, c: Option<nat>, role: Role)
    requires i <= |roles|
  {
    && (c.Some? ==> c.value < i && roles[c.value] == Some(role) && forall j | 0 <= j < c.value :: roles[j] != Some(role))
    && (c.None? ==> forall j | 0 <= j < i :: roles[j] != Some(role))
  }

  /** One more header: the role's column is unchanged, or set to `i` if it was unset and header `i` claims it. */
  lemma ClaimStep(roles: seq<Option<Role>>, i: nat, cols: Columns, role: Role)
    requires i < |roles| && ClaimedSoFar(roles, i, Column(cols, role), role)
    ensures var next := match roles[i] case None => cols case Some(r) => Claim(cols, r, i);
      ClaimedSoFar(roles, i + 1, Column(next, role), role)
  {
    var next := match roles[i] case None => cols case Some(r) => Claim(cols, r, i);
    assert Column(next, role) == (if Column(cols, role).None? && roles[i] == Some(role) then Some(i) else Column(cols, role));
  }

  lemma {:induction false} MapRolesFromSpec(roles: seq<Option<Role>>, i: nat, cols: Columns, role: Role)
    requires i <= |roles| && ClaimedSoFar(roles, i, Column(cols, role), role)
    ensures ClaimedSoFar(roles, |roles|, Column(MapRolesFrom(roles, i, cols), role), role)
    decreases |roles| - i
  {
    if i < |roles| {
      var next := match roles[i] case None => cols case Some(r) => Claim(cols, r, i);
      ClaimStep(roles, i, cols, role);
      MapRolesFromSpec(roles, i + 1, next, role);
    }
  }

  /**
   * Each role is mapped to the first header that claims it, and left unmapped
   * exactly when no header claims it.
   */
  lemma MapHeadersSpec(headers: seq<Cell>, role: Role)
    ensures var c := Column(MapHeaders(headers), role);
      && (c.Some? ==> FirstWithRole(headers, role, c.value))
      && (c.None? <==> forall j | 0 <= j < |headers| :: HeaderRole(headers[j]) != Some(role))
  {
    var roles := HeaderRoles(headers);
    MapRolesFromSpec(roles, 0, Columns(None, None, None, None), role);
  }

  /** Two roles never share a header index. */
  lemma MapHeadersDistinct(headers: seq<Cell>, r1: Role, r2: Role)
    requires r1 != r2
    ensures var cols := MapHeaders(headers);
      Column(cols, r1).Some? && Column(cols, r2).Some? ==> Column(cols, r1) != Column(cols, r2)
  {
    MapHeadersSpec(headers, r1);
    MapHeadersSpec(headers, r2);
  }

  // ---------------------------------------------------------------------------
  // Status.

  /** `classify_status`: "below" is tested first, so it wins when the range is reversed. */
  function ClassifyStatus(v: Option<real>, low: Option<real>, high: Option<real>): (s: Status)
    ensures s == Unknown <==> v.None? || low.None? || high.None?
    ensures s == Below <==> v.Some? && low.Some? && high.Some? && v.value < low.value
    ensures s == Above <==> v.Some? && low.Some? && high.Some? && low.value <= v.value && high.value < v.value
    ensures s == Within <==> v.Some? && low.Some? && high.Some? && low.value <= v.value <= high.value
  {
    if v.None? || low.None? || high.None? then Unknown
    else if v.value < low.value then Below
    else if v.value > high.value then Above
    else Within
  }

  // ---------------------------------------------------------------------------
  // The table path.

  /** Python truthiness of a cell: present and non-empty. */
  predicate Truthy(c: Cell) {
    c.Some? && c.value != ""
  }

  /** `str(cell)`: a missing cell prints as "None". */
  function CellText(c: Cell): string {
    match c
    case None => "None"
    case Some(t) => t
  }

  /** The columns a table needs before its rows are read. */
  predicate Usable(cols: Columns) {
    cols.testName.Some? && cols.value.Some? && cols.refRange.Some?
  }

  /** Every column the row is read from lies inside it. */
  predicate Reachable(cols: Columns, row: seq<Cell>)
    requires Usable(cols)
  {
    && cols.testName.value < |row|
    && cols.value.value < |row|
    && (cols.unit.Some? ==> cols.unit.value < |row|)
    && cols.refRange.value < |row|
  }

  /**
   * One table row: skipped when all its cells are empty, when a mapped column
   * is missing from it, or when its value or range does not parse.
   */
  function RowRecord(cols: Columns, row: seq<Cell>): Option<Row>
    requires Usable(cols)
  {
    if !(exists k | 0 <= k < |row| :: Truthy(row[k])) then None
    else if !Reachable(cols, row) then None
    else
      var value := ParseValue(row[cols.value.value]);
      var range := ParseRange(row[cols.refRange.value]);
      if value.None? || range.None? then None
      else
        var unit := if cols.unit.Some? then CellText(row[cols.unit.value]) else "";
        var v := value.value;
        var b := range.value;
        Some(Row(Strip(CellText(row[cols.testName.value])), v, Strip(unit), b.low, b.high,
                 ClassifyStatus(Some(v), Some(b.low), Some(b.high))))
  }

  /** A record is made exactly for the rows that have content, reach every mapped column and parse. */
  lemma RowRecordSpec(cols: Columns, row: seq<Cell>)
    requires Usable(cols)
    ensures RowRecord(cols, row).Some? <==>
      && (exists k | 0 <= k < |row| :: Truthy(row[k]))
      && Reachable(cols, row)
      && ParseValue(row[cols.value.value]).Some?
      && ParseRange(row[cols.refRange.value]).Some?
    ensures RowRecord(cols, row).Some? ==>
      var r := RowRecord(cols, row).value;
      && r.testName == Strip(CellText(row[cols.testName.value]))
      && r.unit == Strip(if cols.unit.Some? then CellText(row[cols.unit.value]) else "")
      && Some(r.value) == ParseValue(row[cols.value.value])
      && Some(Bounds(r.refLow, r.refHigh)) == ParseRange(row[cols.refRange.value])
      && IsStripped(r.testName) && IsStripped(r.unit)
      && r.status == ClassifyStatus(Some(r.value), Some(r.refLow), Some(r.refHigh))
  {
  }

  /** The row's record, when it yields one. */
  function RowFound(cols: Columns, row: seq<Cell>): seq<Row>
    requires Usable(cols)
  {
    match RowRecord(cols, row) case None => [] case Some(r) => [r]
  }

  function RowsRecords(cols: Columns, rows: seq<seq<Cell>>): (r: seq<Row>)
    requires Usable(cols)
    ensures |r| <= |rows|
  {
    if rows == [] then []
    else
      RowFound(cols, rows[0]) + RowsRecords(cols, rows[1..])
  }

  /** The table-row loop for one table: nothing without a data row or without the three needed columns. */
  function TableRecords(table: Table): seq<Row> {
    if |table| < 2 then []
    else
      var cols := MapHeaders(table[0]);
      if !Usable(cols) then [] else RowsRecords(cols, table[1..])
  }

  function TablesRecords(tables: seq<Table>): seq<Row> {
    if tables == [] then [] else TableRecords(tables[0]) + TablesRecords(tables[1..])
  }

  function PageTables(pages: seq<Page>): seq<Table> {
    if pages == [] then [] else pages[0].tables + PageTables(pages[1..])
  }

  function PageTexts(pages: seq<Page>): (r: seq<string>)
    ensures |r| == |pages|
    ensures forall k :: 0 <= k < |pages| ==> r[k] == pages[k].text.GetOr("")
  {
    if pages == [] then [] else [pages[0].text.GetOr("")] + PageTexts(pages[1..])
  }

  /** A row as every path of the parser emits it: stripped texts and the status of its own numbers. */
  predicate Consistent(r: Row) {
    && IsStripped(r.testName) && IsStripped(r.unit)
    && r.status == ClassifyStatus(Some(r.value), Some(r.refLow), Some(r.refHigh))
  }

  predicate AllConsistent(rs: seq<Row>) {
    forall k | 0 <= k < |rs| :: Consistent(rs[k])
  }

  lemma AllConsistentConcat(a: seq<Row>, b: seq<Row>)
    requires AllConsistent(a) && AllConsistent(b)
    ensures AllConsistent(a + b)
  {
    forall k | 0 <= k < |a + b| ensures Consistent((a + b)[k]) {
      if k < |a| {
        assert (a + b)[k] == a[k];
      } else {
        assert (a + b)[k] == b[k - |a|];
      }
    }
  }

  lemma RowRecordConsistent(cols: Columns, row: seq<Cell>)
    requires Usable(cols)
    ensures AllConsistent(RowFound(cols, row))
  {
    match RowRecord(cols, row)
    case None =>
    case Some(r) =>
      assert Consistent(r);
      assert RowFound(cols, row) == [r];
  }

  lemma {:induction false} RowsRecordsConsistent(cols: Columns, rows: seq<seq<Cell>>)
    requires Usable(cols)
    ensures AllConsistent(RowsRecords(cols, rows))
    decreases |rows|
  {
    if rows != [] {
      RowRecordConsistent(cols, rows[0]);
      RowsRecordsConsistent(cols, rows[1..]);
      AllConsistentConcat(RowFound(cols, rows[0]), RowsRecords(cols, rows[1..]));
    }
  }

  /** A table without a data row, or whose headers lack a name, value or range column, gives nothing; every row given is consistent. */
  lemma {:induction false} TablesRecordsSpec(tables: seq<Table>)
    ensures AllConsistent(TablesRecords(tables))
    ensures (forall t | 0 <= t < |tables| :: |tables[t]| < 2 || !Usable(MapHeaders(tables[t][0])))
        ==> TablesRecords(tables) == []
    decreases |tables|
  {
    if tables != [] {
      var t := tables[0];
      if |t| >= 2 && Usable(MapHeaders(t[0])) {
        RowsRecordsConsistent(MapHeaders(t[0]), t[1..]);
      }
      TablesRecordsSpec(tables[1..]);
      AllConsistentConcat(TableRecords(t), TablesRecords(tables[1..]));
    }
  }

  // ---------------------------------------------------------------------------
  // The line-based fallback.

  const LineKeywords: seq<string> :=
    ["test", "parameter", "investigation", "result", "value", "reference", "normal", "unit"]

  /** The larger and the smaller of the last two numbers, low first: the fallback's swap of a reversed range. */
  function Ordered(a: real, b: real): (r: Bounds)
    ensures r.low <= r.high
    ensures (r.low == a && r.high == b) || (r.low == b && r.high == a)
  {
    if a > b then Bounds(b, a) else Bounds(a, b)
  }

  /** The text before the first number. */
  function NameOf(line: string): string
    requires |FindAll(line, true)| > 0
  {
    Strip(line[..FindAll(line, true)[0].start])
  }

  /** The first number. */
  function ValueOf(line: string): real
    requires |FindAll(line, true)| > 0
  {
    MatchValue(line, FindAll(line, true)[0])
  }

  /** The last two numbers, low first. */
  function RangeOf(line: string): Bounds
    requires |FindAll(line, true)| >= 2
  {
    var nums := FindAll(line, true);
    Ordered(MatchValue(line, nums[|nums| - 2]), MatchValue(line, nums[|nums| - 1]))
  }

  /** The text between the first number and the next number found after it. */
  function UnitOf(line: string): string
    requires |FindAll(line, true)| > 0
  {
    var rest := line[FindAll(line, true)[0].end..];
    var after := FindAll(rest, true);
    if after == [] then "" else Strip(rest[..after[0].start])
  }

  /** A stripped line the fallback reads: not blank, no header keyword, three numbers or more, a name before them. */
  predicate Readable(line: string) {
    && line != []
    && !MentionsAny(Lower(line), LineKeywords)
    && |FindAll(line, true)| >= 3
    && NameOf(line) != []
  }

  /**
   * One line of the fallback: skipped when blank, when it mentions a header
   * keyword, when it holds fewer than three signed numbers, when nothing
   * precedes the first number, or when value and both bounds coincide.
   */
  function LineRecord(raw: string): Option<Row> {
    var line := Strip(raw);
    if !Readable(line) then None else RecordOf(line)
  }

  /** The row of a line holding three numbers or more, unless value and both bounds coincide. */
  function RecordOf(line: string): Option<Row>
    requires |FindAll(line, true)| >= 3
  {
    var v := ValueOf(line);
    var b := RangeOf(line);
    if v == b.low && b.low == b.high then None
    else Some(Row(NameOf(line), v, UnitOf(line), b.low, b.high, ClassifyStatus(Some(v), Some(b.low), Some(b.high))))
  }

  /** The value and both bounds of a line are one number. */
  predicate Repeated(line: string)
    requires |FindAll(line, true)| >= 3
  {
    ValueOf(line) == RangeOf(line).low == RangeOf(line).high
  }

  /**
   * `r` is what the fallback makes of `line`: the text before the first
   * number as the name, the first number as the value, the text after it up
   * to the next number as the unit, and the last two
   * numbers as the range, low first; not one number repeated.
   */
  predicate KeptRow(line: string, r: Row)
    requires |FindAll(line, true)| >= 3
  {
    var nums := FindAll(line, true);
    && r.unit == UnitOf(line)
    && r.testName != [] && r.testName == NameOf(line)
    && r.value == MatchValue(line, nums[0])
    && r.refLow <= r.refHigh
    && {r.refLow, r.refHigh} == {MatchValue(line, nums[|nums| - 2]), MatchValue(line, nums[|nums| - 1])}
    && !(r.value == r.refLow && r.refLow == r.refHigh)
  }

  /** Every line the fallback keeps has a name, an ordered range, a consistent status and is not one number repeated. */
  lemma LineRecordSpec(raw: string)
    ensures LineRecord(raw).Some? <==> Readable(Strip(raw)) && !Repeated(Strip(raw))
    ensures LineRecord(raw).Some? ==> Readable(Strip(raw)) && KeptRow(Strip(raw), LineRecord(raw).value)
  {
    var line := Strip(raw);
    if Readable(line) {
      LineRecordOfReadable(raw, line);
      ReadableRecord(line);
      if RecordOf(line).Some? {
        ReadableRecordFields(line, RecordOf(line).value);
      }
    }
  }

  lemma LineRecordOfReadable(raw: string, line: string)
    requires line == Strip(raw) && Readable(line)
    ensures LineRecord(raw) == RecordOf(line)
  {
  }

  /** The fields of the row the fallback builds, read off the line. */
  lemma ReadableRecordFields(line: string, r: Row)
    requires Readable(line) && RecordOf(line) == Some(r)
    ensures KeptRow(line, r)
  {
    ReadableRecord(line);
  }

  /** What the fallback builds from a line holding three numbers or more. */
  lemma ReadableRecord(line: string)
    requires |FindAll(line, true)| >= 3
    ensures RecordOf(line).Some? <==> !Repeated(line)
    ensures RecordOf(line).Some? ==>
      var nums := FindAll(line, true);
      && RecordOf(line).value.testName == NameOf(line)
      && RecordOf(line).value.value == MatchValue(line, nums[0])
      && RecordOf(line).value.unit == UnitOf(line)
      && RecordOf(line).value.refLow <= RecordOf(line).value.refHigh
      && {RecordOf(line).value.refLow, RecordOf(line).value.refHigh}
         == {MatchValue(line, nums[|nums| - 2]), MatchValue(line, nums[|nums| - 1])}
  {
    var nums := FindAll(line, true);
    var x, y := MatchValue(line, nums[|nums| - 2]), MatchValue(line, nums[|nums| - 1]);
    var b := RangeOf(line);
    assert b == Ordered(x, y);
    assert {b.low, b.high} == {x, y};
  }

  lemma LineRecordConsistent(raw: string)
    ensures LineRecord(raw).Some? ==> Consistent(LineRecord(raw).value) && LineRecord(raw).value.refLow <= LineRecord(raw).value.refHigh
  {
  }

  /** The unit read from the rest of the line is the text between the first two numbers of the whole line. */
  lemma UnitBetweenFirstNumbers(line: string)
    requires |FindAll(line, true)| >= 2
    ensures var nums := FindAll(line, true);
      EndsBeforeNext(nums, 0) && UnitOf(line) == Strip(line[nums[0].end..nums[1].start])
  {
    var nums := FindAll(line, true);
    var first := nums[0];
    var rest := line[first.end..];
    FindAllFromIsFindAllOfTail(line, first.end, true);
    FindAllTail(line, true);
    var after := FindAll(rest, true);
    assert Shift(after, first.end) == nums[1..];
    assert after[0].start == nums[1].start - first.end;
    assert rest[..after[0].start] == line[first.end..nums[1].start];
  }

  /** A single signed literal occupying the whole string. */
  predicate OneLiteral(t: string) {
    FindAll(t, true) == [Match(0, |t|)]
  }

  lemma TwoLiterals(lo: string, sep: string, hi: string)
    requires OneLiteral(lo) && OneLiteral(hi)
    requires NoDigits(sep) && StartsClear(sep + hi) && Separable(sep, hi, true)
    ensures FindAll(lo + (sep + hi), true)
         == [Match(0, |lo|), Match(|lo| + |sep|, |lo| + |sep| + |hi|)]
  {
    NoiseThenRest(sep, hi, true);
    LiteralThenRest(lo, sep + hi, true);
  }

  /** A literal in front of a text with two literals. */
  lemma LiteralThenPair(a: string, b: string, x: Match, y: Match)
    requires OneLiteral(a) && StartsClear(b)
    requires FindAll(b, true) == [x, y]
    ensures FindAll(a + b, true)
         == [Match(0, |a|), Match(x.start + |a|, x.end + |a|), Match(y.start + |a|, y.end + |a|)]
  {
    var all := FindAll(a + b, true);
    assert |all| >= 1 && all[0] == Match(0, |a|)
        && all[1..] == [Match(x.start + |a|, x.end + |a|), Match(y.start + |a|, y.end + |a|)] by {
      LiteralThenRest(a, b, true);
      ShiftPair(x, y, |a|);
    }
    assert all == [all[0]] + all[1..];
  }

  /** Digit-free noise in front of a text with two literals. */
  lemma NoiseThenPair(a: string, b: string, x: Match, y: Match)
    requires NoDigits(a) && Separable(a, b, true)
    requires FindAll(b, true) == [x, y]
    ensures FindAll(a + b, true) == [Match(x.start + |a|, x.end + |a|), Match(y.start + |a|, y.end + |a|)]
  {
    NoiseThenRest(a, b, true);
    ShiftPair(x, y, |a|);
  }

  lemma ThreeLiterals(v: string, mid: string, lo: string, sep: string, hi: string)
    requires OneLiteral(v) && OneLiteral(lo) && OneLiteral(hi)
    requires NoDigits(mid) && mid != [] && StartsClear(mid) && Separable(mid, lo, true)
    requires NoDigits(sep) && StartsClear(sep + hi) && Separable(sep, hi, true)
    ensures FindAll(v + (mid + (lo + (sep + hi))), true)
         == [Match(0, |v|), Match(|v| + |mid|, |v| + |mid| + |lo|),
             Match(|v| + |mid| + |lo| + |sep|, |v| + |mid| + |lo| + |sep| + |hi|)]
  {
    var tail := lo + (sep + hi);
    TwoLiterals(lo, sep, hi);
    assert |lo| > 0 && tail[0] == lo[0];
    NoiseThenPair(mid, tail, Match(0, |lo|), Match(|lo| + |sep|, |lo| + |sep| + |hi|));
    assert (mid + tail)[0] == mid[0];
    LiteralThenPair(v, mid + tail, Match(|mid|, |mid| + |lo|), Match(|mid| + |lo| + |sep|, |mid| + |lo| + |sep| + |hi|));
  }

  /** Digit-free noise in front of a text with three literals. */
  lemma NoiseThenTriple(a: string, b: string, x: Match, y: Match, z: Match)
    requires NoDigits(a) && Separable(a, b, true)
    requires FindAll(b, true) == [x, y, z]
    ensures FindAll(a + b, true)
         == [Match(x.start + |a|, x.end + |a|), Match(y.start + |a|, y.end + |a|), Match(z.start + |a|, z.end + |a|)]
  {
    NoiseThenRest(a, b, true);
    ShiftTriple(x, y, z, |a|);
  }

  /** The line "name value mid low sep high" with a digit-free name, `mid` and `sep`. */
  function Layout(name: string, v: string, mid: string, lo: string, sep: string, hi: string): string {
    name + " " + v + mid + lo + sep + hi
  }

  /** Where the scanner finds the three numbers of a laid-out line. */
  lemma LayoutLiterals(name: string, v: string, mid: string, lo: string, sep: string, hi: string)
    requires NoDigits(name)
    requires OneLiteral(v) && OneLiteral(lo) && OneLiteral(hi)
    requires NoDigits(mid) && mid != [] && StartsClear(mid) && Separable(mid, lo, true)
    requires NoDigits(sep) && StartsClear(sep + hi) && Separable(sep, hi, true)
    ensures var p0 := |name| + 1;
      var p1 := p0 + |v| + |mid|;
      var p2 := p1 + |lo| + |sep|;
      FindAll(Layout(name, v, mid, lo, sep, hi), true)
        == [Match(p0, p0 + |v|), Match(p1, p1 + |lo|), Match(p2, p2 + |hi|)]
  {
    var rest := v + (mid + (lo + (sep + hi)));
    assert Layout(name, v, mid, lo, sep, hi) == (name + " ") + rest;
    ThreeLiterals(v, mid, lo, sep, hi);
    assert (name + " ")[|name|] == ' ';
    NoiseThenTriple(name + " ", rest, Match(0, |v|), Match(|v| + |mid|, |v| + |mid| + |lo|),
      Match(|v| + |mid| + |lo| + |sep|, |v| + |mid| + |lo| + |sep| + |hi|));
  }

  /** The pieces of a laid-out line sit where `LayoutLiterals` finds its numbers. */
  lemma LayoutPieces(name: string, v: string, mid: string, lo: string, sep: string, hi: string)
    ensures var line := Layout(name, v, mid, lo, sep, hi);
      var p0 := |name| + 1;
      var p1 := p0 + |v| + |mid|;
      var p2 := p1 + |lo| + |sep|;
      && |line| == p2 + |hi|
      && line[..p0] == name + " "
      && line[p0..p0 + |v|] == v
      && line[p0 + |v|..p1] == mid
      && line[p1..p1 + |lo|] == lo
      && line[p2..p2 + |hi|] == hi
  {
  }

  /** `line` holds the pieces at the places where the scanner finds its three numbers. */
  predicate Placed(line: string, name: string, v: string, mid: string, lo: string, sep: string, hi: string) {
    var p0 := |name| + 1;
    var p1 := p0 + |v| + |mid|;
    var p2 := p1 + |lo| + |sep|;
    && |line| == p2 + |hi|
    && FindAll(line, true) == [Match(p0, p0 + |v|), Match(p1, p1 + |lo|), Match(p2, p2 + |hi|)]
    && line[..p0] == name + " "
    && line[p0..p0 + |v|] == v
    && line[p0 + |v|..p1] == mid
    && line[p1..p1 + |lo|] == lo
    && line[p2..p2 + |hi|] == hi
  }

  lemma LayoutPlaced(name: string, v: string, mid: string, lo: string, sep: string, hi: string)
    requires NoDigits(name)
    requires OneLiteral(v) && OneLiteral(lo) && OneLiteral(hi)
    requires NoDigits(mid) && mid != [] && StartsClear(mid) && Separable(mid, lo, true)
    requires NoDigits(sep) && StartsClear(sep + hi) && Separable(sep, hi, true)
    ensures Placed(Layout(name, v, mid, lo, sep, hi), name, v, mid, lo, sep, hi)
  {
    LayoutLiterals(name, v, mid, lo, sep, hi);
    LayoutPieces(name, v, mid, lo, sep, hi);
  }

  lemma PlacedName(line: string, name: string, v: string, mid: string, lo: string, sep: string, hi: string)
    requires Placed(line, name, v, mid, lo, sep, hi)
    requires name != [] && IsStripped(name)
    ensures |FindAll(line, true)| > 0 && NameOf(line) == name
  {
    StripDropsTrailingBlank(name, " ");
  }

  lemma PlacedValues(line: string, name: string, v: string, mid: string, lo: string, sep: string, hi: string)
    requires Placed(line, name, v, mid, lo, sep, hi)
    ensures |FindAll(line, true)| == 3
    ensures ValueOf(line) == LiteralValue(v)
    ensures RangeOf(line) == Ordered(LiteralValue(lo), LiteralValue(hi))
  {
    var p0 := |name| + 1;
    var p1 := p0 + |v| + |mid|;
    var p2 := p1 + |lo| + |sep|;
    ThreeMatchValues(line, Match(p0, p0 + |v|), Match(p1, p1 + |lo|), Match(p2, p2 + |hi|), v, lo, hi);
  }

  /** The value and range of a line whose three numbers are known, with their texts. */
  lemma ThreeMatchValues(line: string, a: Match, b: Match, c: Match, v: string, lo: string, hi: string)
    requires FindAll(line, true) == [a, b, c]
    requires a.start <= a.end <= |line| && b.start <= b.end <= |line| && c.start <= c.end <= |line|
    requires line[a.start..a.end] == v && line[b.start..b.end] == lo && line[c.start..c.end] == hi
    ensures ValueOf(line) == LiteralValue(v)
    ensures RangeOf(line) == Ordered(LiteralValue(lo), LiteralValue(hi))
  {
    var nums := FindAll(line, true);
    assert nums[0] == a && nums[|nums| - 2] == b && nums[|nums| - 1] == c;
  }

  lemma PlacedUnit(line: string, name: string, v: string, mid: string, lo: string, sep: string, hi: string)
    requires Placed(line, name, v, mid, lo, sep, hi)
    ensures |FindAll(line, true)| > 0 && UnitOf(line) == Strip(mid)
  {
    var p0 := |name| + 1;
    var p1 := p0 + |v| + |mid|;
    var nums := FindAll(line, true);
    assert nums[0].end == p0 + |v| && nums[1].start == p1;
    UnitFromSpan(line, p0 + |v|, p1, mid);
  }

  /** The unit is the stripped text between the end of the first number and the start of the second. */
  lemma UnitFromSpan(line: string, a: nat, b: nat, mid: string)
    requires |FindAll(line, true)| >= 2
    requires FindAll(line, true)[0].end == a && FindAll(line, true)[1].start == b
    requires a <= b <= |line| && line[a..b] == mid
    ensures UnitOf(line) == Strip(mid)
  {
    UnitBetweenFirstNumbers(line);
  }

  /**
   * A line laid out as "name value unit low sep high" is read as that name,
   * value and unit, with the two bounds in increasing order, unless all three
   * numbers are equal.
   */
  lemma LineRecordOfLayout(name: string, v: string, mid: string, lo: string, sep: string, hi: string)
    requires name != [] && IsStripped(name) && NoDigits(name)
    requires OneLiteral(v) && OneLiteral(lo) && OneLiteral(hi) && !IsSpace(hi[|hi| - 1])
    requires NoDigits(mid) && mid != [] && StartsClear(mid) && Separable(mid, lo, true)
    requires NoDigits(sep) && StartsClear(sep + hi) && Separable(sep, hi, true)
    requires !MentionsAny(Lower(Layout(name, v, mid, lo, sep, hi)), LineKeywords)
    ensures var x := LiteralValue(v);
      var b := Ordered(LiteralValue(lo), LiteralValue(hi));
      !(x == b.low && b.low == b.high) ==>
        LineRecord(Layout(name, v, mid, lo, sep, hi))
          == Some(Row(name, x, Strip(mid), b.low, b.high, ClassifyStatus(Some(x), Some(b.low), Some(b.high))))
  {
    var line := Layout(name, v, mid, lo, sep, hi);
    LayoutPlaced(name, v, mid, lo, sep, hi);
    PlacedName(line, name, v, mid, lo, sep, hi);
    PlacedValues(line, name, v, mid, lo, sep, hi);
    PlacedUnit(line, name, v, mid, lo, sep, hi);
    LayoutEnds(name, v, mid, lo, sep, hi);
    StripFixesStripped(line);
    assert Readable(line);
  }

  /** A laid-out line starts with the name's first character and ends with the high bound's last. */
  lemma LayoutEnds(name: string, v: string, mid: string, lo: string, sep: string, hi: string)
    requires name != [] && hi != []
    ensures var line := Layout(name, v, mid, lo, sep, hi);
      line != [] && line[0] == name[0] && line[|line| - 1] == hi[|hi| - 1]
  {
  }

  /** `extract_tests_from_text`: the records of the lines that qualify, in line order. */
  function ExtractFromText(text: string): seq<Row> {
    LinesRecords(SplitLines(text))
  }

  function LinesRecords(lines: seq<string>): (r: seq<Row>)
    ensures |r| <= |lines|
  {
    if lines == [] then []
    else
      var here := match LineRecord(lines[0]) case None => [] case Some(row) => [row];
      here + LinesRecords(lines[1..])
  }

  /** What the fallback guarantees of each row: consistency and an ordered range. */
  predicate FallbackRow(r: Row) {
    Consistent(r) && r.refLow <= r.refHigh
  }

  predicate AllFallbackRows(rs: seq<Row>) {
    forall k | 0 <= k < |rs| :: FallbackRow(rs[k])
  }

  lemma AllFallbackRowsConcat(a: seq<Row>, b: seq<Row>)
    requires AllFallbackRows(a) && AllFallbackRows(b)
    ensures AllFallbackRows(a + b)
  {
    forall k | 0 <= k < |a + b| ensures FallbackRow((a + b)[k]) {
      if k < |a| {
        assert (a + b)[k] == a[k];
      } else {
        assert (a + b)[k] == b[k - |a|];
      }
    }
  }

  lemma {:induction false} LinesRecordsSpec(lines: seq<string>)
    ensures AllFallbackRows(LinesRecords(lines))
    decreases |lines|
  {
    if lines != [] {
      var here := match LineRecord(lines[0]) case None => [] case Some(row) => [row];
      LineRecordConsistent(lines[0]);
      assert AllFallbackRows(here);
      LinesRecordsSpec(lines[1..]);
      AllFallbackRowsConcat(here, LinesRecords(lines[1..]));
    }
  }

  lemma FallbackRowsConsistent(rs: seq<Row>)
    requires AllFallbackRows(rs)
    ensures AllConsistent(rs)
  {
  }

  /** `extract_tests_from_pdf` after reading: the table rows, or the fallback over the joined page texts when no table gave a row. */
  function ExtractTests(pages: seq<Page>): (r: Extraction)
    ensures r.fullText == Join("\n", PageTexts(pages))
  {
    var fullText := Join("\n", PageTexts(pages));
    var rows := TablesRecords(PageTables(pages));
    if rows == [] then Extraction(ExtractFromText(fullText), fullText) else Extraction(rows, fullText)
  }

  /** Whichever path produced them, the rows are consistent; the fallback is taken exactly when no table row was found. */
  lemma ExtractTestsSpec(pages: seq<Page>)
    ensures AllConsistent(ExtractTests(pages).rows)
    ensures TablesRecords(PageTables(pages)) != [] ==> ExtractTests(pages).rows == TablesRecords(PageTables(pages))
    ensures TablesRecords(PageTables(pages)) == [] ==> ExtractTests(pages).rows == ExtractFromText(ExtractTests(pages).fullText)
  {
    TablesRecordsSpec(PageTables(pages));
    var lines := SplitLines(Join("\n", PageTexts(pages)));
    LinesRecordsSpec(lines);
    FallbackRowsConsistent(LinesRecords(lines));
  }
}
