/**
 * `parse_header`: a small reader for header values such as
 * `text/html; charset="utf-8"`, in the spirit of the parameter syntax of
 * section 5.1 of RFC 2045 but without quoted-string escapes.
 */
module Cgi {
  import opened Wrappers
  import opened Text

  /** `s.lstrip(c)` for a single character `c`. */
  function LStripChar(s: string, c: char): (r: string)
    ensures |r| <= |s| && r == s[|s| - |r|..]
    ensures forall k :: 0 <= k < |s| - |r| ==> s[k] == c
    ensures r == [] || r[0] != c
  {
    if |s| > 0 && s[0] == c then LStripChar(s[1..], c) else s
  }

  /** `s.rstrip(c)` for a single character `c`. */
  function RStripChar(s: string, c: char): (r: string)
    ensures |r| <= |s| && r == s[..|r|]
    ensures forall k :: |r| <= k < |s| ==> s[k] == c
    ensures r == [] || r[|r| - 1] != c
  {
    if |s| > 0 && s[|s| - 1] == c then RStripChar(s[..|s| - 1], c) else s
  }

  /** `s.strip(c)` for a single character `c`. */
  function StripChar(s: string, c: char): string {
    RStripChar(LStripChar(s, c), c)
  }

  /** `[p.strip() for p in parts if p.strip()]` */
  function NonBlankParts(parts: seq<string>): (r: seq<string>)
    ensures |r| <= |parts|
    ensures forall k :: 0 <= k < |r| ==> r[k] != [] && IsStripped(r[k])
  {
    if parts == [] then []
    else (if Strip(parts[0]) == [] then [] else [Strip(parts[0])]) + NonBlankParts(parts[1..])
  }

  /** Blank parts are dropped and the others kept, stripped, in order: the first survivor is the first non-blank part. */
  lemma {:induction false} NonBlankPartsFirst(parts: seq<string>, i: nat)
    requires i < |parts| && Strip(parts[i]) != []
    requires forall j :: 0 <= j < i ==> Strip(parts[j]) == []
    ensures NonBlankParts(parts) != [] && NonBlankParts(parts)[0] == Strip(parts[i])
    decreases i
  {
    if i > 0 {
      NonBlankPartsFirst(parts[1..], i - 1);
    }
  }

  lemma {:induction false} NonBlankPartsOfBlank(parts: seq<string>)
    requires forall j :: 0 <= j < |parts| ==> Strip(parts[j]) == []
    ensures NonBlankParts(parts) == []
    decreases |parts|
  {
    if parts != [] {
      NonBlankPartsOfBlank(parts[1..]);
    }
  }

  datatype Param = Param(key: string, value: string)

  /**
   * One `key=value` part: split at the first '=', the key stripped and
   * lower-cased, the value stripped of whitespace, then of '"', then of "'".
   * Parts without '=' give nothing.
   */
  function ParamOf(part: string): (r: Option<Param>)
    ensures r.Some? <==> '=' in part
  {
    if '=' !in part then None
    else
      var i := IndexOf(part, '=');
      Some(Param(Lower(Strip(part[..i])), StripChar(StripChar(Strip(part[i + 1..]), '"'), '\'')))
  }

  /** Text with no `c` at either end, which `strip(c)` leaves alone. */
  predicate ClearOf(s: string, c: char) {
    s == [] || (s[0] != c && s[|s| - 1] != c)
  }

  lemma StripCharOfClear(s: string, c: char)
    requires ClearOf(s, c)
    ensures StripChar(s, c) == s
  {
  }

  /** Stripping a character from a text wrapped in it unwraps the text. */
  lemma StripCharOfWrapped(s: string, c: char)
    requires ClearOf(s, c)
    ensures StripChar([c] + s + [c], c) == s
  {
    var w := [c] + s + [c];
    assert w[1..] == s + [c];
    var l := LStripChar(w, c);
    assert l == LStripChar(s + [c], c);
    if s == [] {
      assert LStripChar([c], c) == [];
    } else {
      assert (s + [c])[0] == s[0];
      assert l == s + [c];
      assert (s + [c])[..|s|] == s;
    }
  }

  /** A value as written in a header: bare, or in double quotes. */
  function Rendered(value: string, quoted: bool): string {
    if quoted then "\"" + value + "\"" else value
  }

  /** The value of a part is read after the first '='. */
  lemma ParamOfSplit(key: string, rest: string)
    requires '=' !in key
    ensures ParamOf(key + "=" + rest)
         == Some(Param(Lower(Strip(key)), StripChar(StripChar(Strip(rest), '"'), '\'')))
  {
    var part := key + "=" + rest;
    assert part[|key|] == '=';
    var i := IndexOf(part, '=');
    assert part[..i] == key;
    assert part[i + 1..] == rest;
  }

  lemma ValueOfRendered(value: string, quoted: bool)
    requires ClearOf(value, '"') && ClearOf(value, '\'')
    requires quoted || IsStripped(value)
    ensures StripChar(StripChar(Strip(Rendered(value, quoted)), '"'), '\'') == value
  {
    var rest := Rendered(value, quoted);
    if quoted {
      assert IsStripped(rest);
      StripFixesStripped(rest);
      StripCharOfWrapped(value, '"');
    } else {
      StripFixesStripped(value);
      StripCharOfClear(value, '"');
    }
    StripCharOfClear(value, '\'');
  }

  /**
   * Reading `key=value` back: a stripped, lower-case key without '=' and a
   * value without quotes at its ends come back as written, with the double
   * quotes around a quoted value removed.
   */
  lemma ParamOfRendered(key: string, value: string, quoted: bool)
    requires '=' !in key && IsStripped(key) && NoUpperCase(key)
    requires ClearOf(value, '"') && ClearOf(value, '\'')
    requires quoted || IsStripped(value)
    ensures ParamOf(key + "=" + Rendered(value, quoted)) == Some(Param(key, value))
  {
    ParamOfSplit(key, Rendered(value, quoted));
    ValueOfRendered(value, quoted);
    StripFixesStripped(key);
    LowerFixesLowerCase(key);
  }

  /** The parameters the parts describe, one entry per part. */
  function ParamsOf(parts: seq<string>): (r: seq<Option<Param>>)
    ensures |r| == |parts|
    ensures forall k :: 0 <= k < |parts| ==> r[k] == ParamOf(parts[k])
  {
    if parts == [] then [] else [ParamOf(parts[0])] + ParamsOf(parts[1..])
  }

  /** The dictionary after one more part of the loop: a later key overwrites an earlier one. */
  function Assign(m: map<string, string>, p: Option<Param>): map<string, string> {
    match p
    case None => m
    case Some(q) => m[q.key := q.value]
  }

  /** The loop over the parameter parts, front to back. */
  function AddParams(m: map<string, string>, ps: seq<Option<Param>>): map<string, string>
    decreases |ps|
  {
    if ps == [] then m else AddParams(Assign(m, ps[0]), ps[1..])
  }

  lemma AddParamsSingle(m: map<string, string>, q: Param)
    ensures AddParams(m, [Some(q)]) == m[q.key := q.value]
  {
    assert [Some(q)][1..] == [];
  }

  predicate Sets(p: Option<Param>, key: string) {
    p.Some? && p.value.key == key
  }

  /** Reference reading, back to front: the value a key gets is the one of the last part that sets it. */
  function LastValue(ps: seq<Option<Param>>, key: string): (r: Option<string>)
    decreases |ps|
  {
    if ps == [] then None
    else if Sets(ps[|ps| - 1], key) then Some(ps[|ps| - 1].value.value)
    else LastValue(ps[..|ps| - 1], key)
  }

  /** `LastValue` finds a value exactly when some part sets the key, and then no later part sets it. */
  lemma {:induction false} LastValueSpec(ps: seq<Option<Param>>, key: string)
    ensures LastValue(ps, key).Some? <==> exists i :: 0 <= i < |ps| && Sets(ps[i], key)
    ensures LastValue(ps, key).Some? ==>
      exists i :: 0 <= i < |ps| && Sets(ps[i], key) && ps[i].value.value == LastValue(ps, key).value
        && forall j :: i < j < |ps| ==> !Sets(ps[j], key)
    decreases |ps|
  {
    if ps != [] {
      LastValueSpec(ps[..|ps| - 1], key);
      if Sets(ps[|ps| - 1], key) {
        LastValueAtEnd(ps, key);
      } else {
        LastValueInFront(ps, key);
      }
    }
  }

  /** The last part sets the key: its value is found, and no later part exists. */
  lemma LastValueAtEnd(ps: seq<Option<Param>>, key: string)
    requires ps != [] && Sets(ps[|ps| - 1], key)
    ensures LastValue(ps, key).Some? <==> exists i :: 0 <= i < |ps| && Sets(ps[i], key)
    ensures LastValue(ps, key).Some? ==>
      exists i :: 0 <= i < |ps| && Sets(ps[i], key) && ps[i].value.value == LastValue(ps, key).value
        && forall j :: i < j < |ps| ==> !Sets(ps[j], key)
  {
    var n := |ps| - 1;
    assert LastValue(ps, key) == Some(ps[n].value.value);
  }

  /** The last part does not set the key: the answer is the one for the parts before it. */
  lemma LastValueInFront(ps: seq<Option<Param>>, key: string)
    requires ps != [] && !Sets(ps[|ps| - 1], key)
    requires var front := ps[..|ps| - 1];
      && (LastValue(front, key).Some? <==> exists i :: 0 <= i < |front| && Sets(front[i], key))
      && (LastValue(front, key).Some? ==>
        exists i :: 0 <= i < |front| && Sets(front[i], key) && front[i].value.value == LastValue(front, key).value
          && forall j :: i < j < |front| ==> !Sets(front[j], key))
    ensures LastValue(ps, key).Some? <==> exists i :: 0 <= i < |ps| && Sets(ps[i], key)
    ensures LastValue(ps, key).Some? ==>
      exists i :: 0 <= i < |ps| && Sets(ps[i], key) && ps[i].value.value == LastValue(ps, key).value
        && forall j :: i < j < |ps| ==> !Sets(ps[j], key)
  {
    var front := ps[..|ps| - 1];
    assert LastValue(ps, key) == LastValue(front, key);
    SomeSetterInFront(ps, front, key);
    if LastValue(front, key).Some? {
      var i :| 0 <= i < |front| && Sets(front[i], key) && front[i].value.value == LastValue(front, key).value
        && forall j :: i < j < |front| ==> !Sets(front[j], key);
      LastSetterInFront(ps, key, i);
    }
  }

  lemma SomeSetterInFront(ps: seq<Option<Param>>, front: seq<Option<Param>>, key: string)
    requires ps != [] && !Sets(ps[|ps| - 1], key) && front == ps[..|ps| - 1]
    ensures (exists i :: 0 <= i < |ps| && Sets(ps[i], key)) <==> exists i :: 0 <= i < |front| && Sets(front[i], key)
  {
    if i :| 0 <= i < |ps| && Sets(ps[i], key) {
      assert front[i] == ps[i];
    }
    if i :| 0 <= i < |front| && Sets(front[i], key) {
      assert front[i] == ps[i];
    }
  }

  lemma LastSetterInFront(ps: seq<Option<Param>>, key: string, i: nat)
    requires ps != [] && !Sets(ps[|ps| - 1], key)
    requires var front := ps[..|ps| - 1];
      i < |front| && Sets(front[i], key) && forall j :: i < j < |front| ==> !Sets(front[j], key)
    ensures i < |ps| && Sets(ps[i], key) && ps[i] == ps[..|ps| - 1][i]
    ensures forall j :: i < j < |ps| ==> !Sets(ps[j], key)
  {
    var front := ps[..|ps| - 1];
    forall j | i < j < |ps| ensures !Sets(ps[j], key) {
      if j < |front| {
        assert front[j] == ps[j];
      }
    }
  }

  lemma {:induction false} AddParamsSnoc(m: map<string, string>, ps: seq<Option<Param>>, p: Option<Param>)
    ensures AddParams(m, ps + [p]) == Assign(AddParams(m, ps), p)
    decreases |ps|
  {
    if ps == [] {
      assert [p][1..] == [];
    } else {
      assert (ps + [p])[1..] == ps[1..] + [p];
      AddParamsSnoc(Assign(m, ps[0]), ps[1..], p);
    }
  }

  /**
   * After the loop, a key set by some part holds the last part's value; a key
   * no part sets is present, with its old value, only if it was before.
   */
  predicate LastWins(m: map<string, string>, ps: seq<Option<Param>>, key: string) {
    var r := AddParams(m, ps);
    && (LastValue(ps, key).Some? ==> key in r && r[key] == LastValue(ps, key).value)
    && (LastValue(ps, key).None? ==> (key in r <==> key in m) && (key in m ==> r[key] == m[key]))
  }

  /** One step of `AddParamsLastWins`, given the claim for the parts before the last. */
  lemma AddParamsLastWinsStep(m: map<string, string>, ps: seq<Option<Param>>, key: string)
    requires ps != []
    requires LastWins(m, ps[..|ps| - 1], key)
    ensures LastWins(m, ps, key)
  {
    var front := ps[..|ps| - 1];
    assert ps == front + [ps[|ps| - 1]];
    AddParamsSnoc(m, front, ps[|ps| - 1]);
  }

  /** The loop's dictionary holds a key iff it was there already or some part sets it; the last such part wins. */
  lemma {:induction false} AddParamsLastWins(m: map<string, string>, ps: seq<Option<Param>>, key: string)
    ensures LastWins(m, ps, key)
    decreases |ps|
  {
    if ps != [] {
      AddParamsLastWins(m, ps[..|ps| - 1], key);
      AddParamsLastWinsStep(m, ps, key);
    }
  }

  datatype Header = Header(main: string, params: map<string, string>)

  /** The non-blank `;`-separated parts, stripped. */
  function HeaderParts(line: string): seq<string> {
    NonBlankParts(Split(line, ';'))
  }

  /** The header the parts describe: the first as main value, the parameters of the rest. */
  function FromParts(parts: seq<string>): Header {
    if parts == [] then Header("", map[]) else Header(parts[0], AddParams(map[], ParamsOf(parts[1..])))
  }

  /**
   * `parse_header`: nothing for a missing or empty line; else the first
   * non-blank part as the main value and the parameters of the later parts.
   */
  function ParseHeader(line: Option<string>): (h: Header)
    ensures line.None? || line == Some("") ==> h == Header("", map[])
  {
    match line
    case None => Header("", map[])
    case Some(l) => if l == "" then Header("", map[]) else FromParts(HeaderParts(l))
  }

  /** When every `;`-separated part is blank the main value is "". */
  lemma ParseHeaderAllBlank(line: string)
    requires line != ""
    requires forall j :: 0 <= j < |Split(line, ';')| ==> Strip(Split(line, ';')[j]) == []
    ensures ParseHeader(Some(line)) == Header("", map[])
  {
    NonBlankPartsOfBlank(Split(line, ';'));
  }

  /** The main value is the first non-blank `;`-separated part, stripped. */
  lemma ParseHeaderMain(line: string, i: nat)
    requires line != ""
    requires i < |Split(line, ';')| && Strip(Split(line, ';')[i]) != []
    requires forall j :: 0 <= j < i ==> Strip(Split(line, ';')[j]) == []
    ensures ParseHeader(Some(line)).main == Strip(Split(line, ';')[i])
  {
    NonBlankPartsFirst(Split(line, ';'), i);
  }

  /** A key is a parameter iff a part after the main value sets it, and it takes the value of the last such part. */
  lemma ParseHeaderParams(line: string, key: string)
    requires line != ""
    ensures var parts := HeaderParts(line);
      var h := ParseHeader(Some(line));
      var later := if parts == [] then [] else ParamsOf(parts[1..]);
      && (key in h.params <==> LastValue(later, key).Some?)
      && (LastValue(later, key).Some? ==> key in h.params && h.params[key] == LastValue(later, key).value)
  {
    var parts := HeaderParts(line);
    assert ParseHeader(Some(line)) == FromParts(parts);
    if parts != [] {
      AddParamsLastWins(map[], ParamsOf(parts[1..]), key);
    }
  }

  // The example of the function's own documentation.

  lemma ContentTypeParts()
    ensures "text/html; charset=\"utf-8\"" == Join([';'], ["text/html", " charset=\"utf-8\""])
    ensures ';' !in "text/html" && ';' !in " charset=\"utf-8\""
  {
  }

  lemma ContentTypeSplit()
    ensures Split("text/html; charset=\"utf-8\"", ';') == ["text/html", " charset=\"utf-8\""]
  {
    ContentTypeParts();
    var parts := ["text/html", " charset=\"utf-8\""];
    assert forall k :: 0 <= k < |parts| ==> ';' !in parts[k];
    SplitJoin(parts, ';');
  }

  lemma MediaTypeStripped()
    ensures Strip("text/html") == "text/html"
  {
    var s := "text/html";
    assert IsStripped(s) by {
      assert s[0] == 't' && s[|s| - 1] == 'l';
    }
    StripFixesStripped(s);
  }

  lemma CharsetPartStripped()
    ensures Strip(" charset=\"utf-8\"") == "charset=\"utf-8\""
  {
    CharsetTextStripped();
    StripLeftPadded("charset=\"utf-8\"");
    CharsetPadded();
  }

  lemma CharsetTextStripped()
    ensures IsStripped("charset=\"utf-8\"")
  {
    var t := "charset=\"utf-8\"";
    assert t[0] == 'c' && t[|t| - 1] == '"';
  }

  lemma CharsetPadded()
    ensures [' '] + "charset=\"utf-8\"" == " charset=\"utf-8\""
  {
  }

  lemma CharsetParam()
    ensures ParamOf("charset=\"utf-8\"") == Some(Param("charset", "utf-8"))
  {
    assert "charset" + "=" + Rendered("utf-8", true) == "charset=\"utf-8\"";
    assert NoUpperCase("charset") && IsStripped("charset") && '=' !in "charset";
    ParamOfRendered("charset", "utf-8", true);
  }

  lemma ContentTypeHeaderParts()
    ensures HeaderParts("text/html; charset=\"utf-8\"") == ["text/html", "charset=\"utf-8\""]
  {
    var a, b := "text/html", " charset=\"utf-8\"";
    assert HeaderParts("text/html; charset=\"utf-8\"") == NonBlankParts([a, b]) by {
      ContentTypeSplit();
    }
    assert Strip(a) == a by {
      MediaTypeStripped();
    }
    assert Strip(b) == "charset=\"utf-8\"" by {
      CharsetPartStripped();
    }
    NonBlankPartsPair(a, b);
  }

  lemma NonBlankPartsPair(a: string, b: string)
    requires Strip(a) != [] && Strip(b) != []
    ensures NonBlankParts([a, b]) == [Strip(a), Strip(b)]
  {
    PairOfSingles(a, b);
    NonBlankPartsCons(a, [b] + []);
    NonBlankPartsCons(b, []);
    NonBlankPartsEmpty();
    PairOfSingles(Strip(a), Strip(b));
  }

  lemma PairOfSingles(x: string, y: string)
    ensures [x, y] == [x] + ([y] + [])
  {
  }

  lemma NonBlankPartsCons(p: string, rest: seq<string>)
    ensures NonBlankParts([p] + rest) == (if Strip(p) == [] then [] else [Strip(p)]) + NonBlankParts(rest)
  {
    assert ([p] + rest)[0] == p && ([p] + rest)[1..] == rest;
  }

  lemma NonBlankPartsEmpty()
    ensures NonBlankParts([]) == []
  {
  }

  lemma CharsetParams()
    ensures AddParams(map[], ParamsOf(["charset=\"utf-8\""])) == map["charset" := "utf-8"]
  {
    var parts := ["charset=\"utf-8\""];
    CharsetParam();
    var ps := ParamsOf(parts);
    assert ps == [Some(Param("charset", "utf-8"))];
    AddParamsSingle(map[], Param("charset", "utf-8"));
  }

  /** 'text/html; charset="utf-8"' reads as the media type with one charset parameter. */
  lemma ContentTypeExample()
    ensures ParseHeader(Some("text/html; charset=\"utf-8\"")) == Header("text/html", map["charset" := "utf-8"])
  {
    ContentTypeHeaderParts();
    CharsetParams();
    var parts := ["text/html", "charset=\"utf-8\""];
    assert parts[1..] == ["charset=\"utf-8\""];
  }
}
