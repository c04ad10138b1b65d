/**
 * The two pure helpers of the WhatsApp client: turning a detected phone
 * number into the digits-only, country-code-91 form (E.164 without the '+')
 * and cleaning a template parameter.
 */
module WhatsApp {
  import opened Wrappers
  import opened Text

  // ---------------------------------------------------------------------------
  // Phone numbers.

  /** `re.sub(r"\D", "", s)`: the digits of `s`, in order. */
  function KeepDigits(s: string): (r: string)
    ensures AllDigits(r) && |r| <= |s|
  {
    if s == [] then []
    else (if IsDigit(s[0]) then [s[0]] else []) + KeepDigits(s[1..])
  }

  /** Removing non-digits leaves a digit string alone and distributes over concatenation. */
  lemma {:induction false} KeepDigitsConcat(a: string, b: string)
    ensures KeepDigits(a + b) == KeepDigits(a) + KeepDigits(b)
    decreases |a|
  {
    if a == [] {
      assert a + b == b;
    } else {
      var h := if IsDigit(a[0]) then [a[0]] else [];
      assert (a + b)[0] == a[0] && (a + b)[1..] == a[1..] + b;
      assert KeepDigits(a + b) == h + KeepDigits(a[1..] + b);
      KeepDigitsConcat(a[1..], b);
      AppendAssoc(h, KeepDigits(a[1..]), KeepDigits(b));
    }
  }

  lemma {:induction false} KeepDigitsOfDigits(s: string)
    requires AllDigits(s)
    ensures KeepDigits(s) == s
    decreases |s|
  {
    if s != [] {
      KeepDigitsOfDigits(s[1..]);
    }
  }

  /** The Indian country code the formatter prepends. */
  const CountryCode: string := "91"

  /**
   * `format_phone_for_whatsapp`: keep the digits, drop the trunk '0' of an
   * 11-digit number, keep a 12-digit number already starting with 91,
   * prefix 91 to a 10-digit number, and pass anything else through.
   */
  function FormatPhone(phone: string): (r: string)
    ensures AllDigits(r)
  {
    var d := KeepDigits(phone);
    var local := if |d| == 11 && d[0] == '0' then d[1..] else d;
    if HasPrefix(local, CountryCode) && |local| == 12 then local
    else if |local| == 10 then CountryCode + local
    else local
  }

  /** What the formatter does, case by case, in terms of the digits of its input. */
  lemma FormatPhoneSpec(phone: string)
    ensures var d := KeepDigits(phone);
      && (|d| == 10 ==> FormatPhone(phone) == "91" + d)
      && (|d| == 11 && d[0] == '0' ==> FormatPhone(phone) == "91" + d[1..])
      && (|d| == 12 && d[..2] == "91" ==> FormatPhone(phone) == d)
      && (|d| != 10 && !(|d| == 11 && d[0] == '0') ==> FormatPhone(phone) == d)
  {
    var d := KeepDigits(phone);
    if |d| == 10 {
      FormatTenDigits(phone);
    }
  }

  /** A ten-digit number gets the country code in front. */
  lemma FormatTenDigits(phone: string)
    requires |KeepDigits(phone)| == 10
    ensures FormatPhone(phone) == CountryCode + KeepDigits(phone)
  {
  }

  /** A formatted number is formatted again to itself. */
  lemma FormatPhoneIdempotent(phone: string)
    ensures FormatPhone(FormatPhone(phone)) == FormatPhone(phone)
  {
    var r := FormatPhone(phone);
    KeepDigitsOfDigits(r);
    FormatPhoneSpec(phone);
    FormatPhoneSpec(r);
    var d := KeepDigits(phone);
    if |d| == 10 {
      assert r[..2] == "91";
    } else if |d| == 11 && d[0] == '0' {
      assert r[..2] == "91";
    }
  }

  // ---------------------------------------------------------------------------
  // Template parameters.

  /** The length a cleaned parameter is cut to before "..." is appended. */
  const MaxParamLength: nat := 400

  /** Positions `k` and `k + 1` both hold whitespace. */
  predicate SpacePair(s: string, k: int) {
    0 <= k && k + 1 < |s| && IsSpace(s[k]) && IsSpace(s[k + 1])
  }

  predicate NoAdjacentSpace(s: string) {
    forall k :: 0 <= k < |s| - 1 ==> !SpacePair(s, k)
  }

  predicate IsLineControl(c: char) {
    c == '\n' || c == '\r' || c == '\t'
  }

  predicate NoLineControls(s: string) {
    forall k :: 0 <= k < |s| ==> !IsLineControl(s[k])
  }

  /** `text.replace("\n", " ").replace("\r", " ").replace("\t", " ")` */
  function BlankControls(s: string): string {
    Replace(Replace(Replace(s, "\n", " "), "\r", " "), "\t", " ")
  }

  /** The three replacements turn exactly the newlines, returns and tabs into spaces. */
  lemma BlankControlsSpec(s: string)
    ensures |BlankControls(s)| == |s|
    ensures forall k :: 0 <= k < |s| ==>
      BlankControls(s)[k] == (if IsLineControl(s[k]) then ' ' else s[k])
  {
    ReplaceChar(s, '\n', ' ');
    var a := Replace(s, "\n", " ");
    ReplaceChar(a, '\r', ' ');
    var b := Replace(a, "\r", " ");
    ReplaceChar(b, '\t', ' ');
  }

  lemma BlankControlsOfClean(s: string)
    requires NoLineControls(s)
    ensures BlankControls(s) == s
  {
    BlankControlsSpec(s);
  }

  /** `re.sub(r"\s{2,}", " ", s)`: every run of two or more whitespace characters becomes one space. */
  function Collapse(s: string): (r: string)
    ensures NoAdjacentSpace(r)
    ensures s != [] ==> r != [] && (IsSpace(r[0]) <==> IsSpace(s[0]))
    ensures NoLineControls(s) ==> NoLineControls(r)
    decreases |s|
  {
    if |s| < 2 then s
    else if IsSpace(s[0]) && IsSpace(s[1]) then
      var rest := LStrip(s);
      assert |rest| < |s|;
      ConsNoAdjacent(' ', Collapse(rest));
      " " + Collapse(rest)
    else
      ConsNoAdjacent(s[0], Collapse(s[1..]));
      [s[0]] + Collapse(s[1..])
  }
  lemma ConsNoAdjacent(c: char, t: string)
    requires NoAdjacentSpace(t) && (t != [] ==> !(IsSpace(c) && IsSpace(t[0])))
    ensures NoAdjacentSpace([c] + t)
  {
    var r := [c] + t;
    forall k | 0 <= k < |r| - 1 ensures !SpacePair(r, k) {
      if k > 0 {
        assert !SpacePair(t, k - 1);
        assert r[k] == t[k - 1] && r[k + 1] == t[k];
      }
    }
  }

  lemma SliceNoAdjacent(s: string, a: nat, b: nat)
    requires a <= b <= |s| && NoAdjacentSpace(s)
    ensures NoAdjacentSpace(s[a..b])
  {
    forall k | 0 <= k < b - a - 1 ensures !SpacePair(s[a..b], k) {
      assert !SpacePair(s, a + k);
      assert s[a..b][k] == s[a + k] && s[a..b][k + 1] == s[a + k + 1];
    }
  }

  /** Collapsing only changes whitespace. */
  lemma {:induction false} CollapseKeepsNonSpace(s: string)
    ensures NonSpace(Collapse(s)) == NonSpace(s)
    decreases |s|
  {
    if |s| >= 2 {
      if IsSpace(s[0]) && IsSpace(s[1]) {
        CollapseKeepsNonSpace(LStrip(s));
        CollapseRunNonSpace(s);
      } else {
        CollapseKeepsNonSpace(s[1..]);
        CollapseCharNonSpace(s);
      }
    }
  }

  lemma CollapseRunNonSpace(s: string)
    requires |s| >= 2 && IsSpace(s[0]) && IsSpace(s[1])
    requires NonSpace(Collapse(LStrip(s))) == NonSpace(LStrip(s))
    ensures NonSpace(Collapse(s)) == NonSpace(s)
  {
    CollapseRunUnfold(s);
    LStripKeepsNonSpace(s);
    BlankHeadNonSpace(Collapse(s), Collapse(LStrip(s)));
  }

  lemma CollapseRunUnfold(s: string)
    requires |s| >= 2 && IsSpace(s[0]) && IsSpace(s[1])
    ensures Collapse(s) == " " + Collapse(LStrip(s))
  {
  }

  /** A leading blank adds no non-blank character. */
  lemma BlankHeadNonSpace(x: string, c: string)
    requires x == " " + c
    ensures NonSpace(x) == NonSpace(c)
  {
    NonSpaceConcat(" ", c);
    NonSpaceOfBlank(" ");
  }

  lemma CollapseCharNonSpace(s: string)
    requires |s| >= 2 && !(IsSpace(s[0]) && IsSpace(s[1]))
    requires NonSpace(Collapse(s[1..])) == NonSpace(s[1..])
    ensures NonSpace(Collapse(s)) == NonSpace(s)
  {
    CollapseCharUnfold(s);
    HeadJoinNonSpace(Collapse(s), Collapse(s[1..]), s);
  }

  lemma CollapseCharUnfold(s: string)
    requires |s| >= 2 && !(IsSpace(s[0]) && IsSpace(s[1]))
    ensures Collapse(s) == [s[0]] + Collapse(s[1..])
  {
  }

  /** Keeping the head of `s` in front of a text with the non-blank characters of its tail. */
  lemma HeadJoinNonSpace(x: string, c: string, s: string)
    requires s != [] && x == [s[0]] + c && NonSpace(c) == NonSpace(s[1..])
    ensures NonSpace(x) == NonSpace(s)
  {
    NonSpaceConcat([s[0]], c);
    assert [s[0]][1..] == [];
  }

  /** Collapsing a run of whitespace keeps the words: none is joined to its neighbour or split. */
  lemma {:induction false} CollapseKeepsWords(s: string, w: string)
    ensures WordsFrom(Collapse(s), w) == WordsFrom(s, w)
    decreases |s|
  {
    if |s| >= 2 {
      if IsSpace(s[0]) && IsSpace(s[1]) {
        CollapseRunUnfold(s);
        var c := Collapse(LStrip(s));
        CollapseKeepsWords(LStrip(s), []);
        assert (" " + c)[0] == ' ' && (" " + c)[1..] == c;
        WordsSkipBlank(s[1..]);
        assert LStrip(s) == LStrip(s[1..]);
      } else {
        CollapseCharUnfold(s);
        var c := Collapse(s[1..]);
        assert ([s[0]] + c)[0] == s[0] && ([s[0]] + c)[1..] == c;
        if IsSpace(s[0]) {
          CollapseKeepsWords(s[1..], []);
        } else {
          CollapseKeepsWords(s[1..], w + [s[0]]);
        }
      }
    }
  }

  /** Collapsing changes nothing in a text without adjacent whitespace. */
  lemma {:induction false} CollapseOfCollapsed(s: string)
    requires NoAdjacentSpace(s)
    ensures Collapse(s) == s
    decreases |s|
  {
    if |s| >= 2 {
      assert !SpacePair(s, 0);
      SliceNoAdjacent(s, 1, |s|);
      assert s[1..|s|] == s[1..];
      CollapseOfCollapsed(s[1..]);
      assert s == [s[0]] + s[1..];
    }
  }

  /** The text before truncation: controls blanked, runs collapsed, ends stripped. */
  function Cleaned(text: string): string {
    Strip(Collapse(BlankControls(text)))
  }

  /**
   * `sanitize_whatsapp_param`: nothing for a missing or empty text; else the
   * cleaned text, cut to 400 characters followed by "..." when longer.
   */
  function Sanitize(text: Option<string>): (r: string)
    ensures text.None? || text == Some("") ==> r == ""
  {
    match text
    case None => ""
    case Some(t) =>
      if t == "" then "" else Truncate(Cleaned(t))
  }

  /** A cleaned text longer than 400 characters is cut to 400 and "..." is appended. */
  function Truncate(cleaned: string): (r: string)
    ensures |r| <= MaxParamLength + 3
  {
    if |cleaned| > MaxParamLength then cleaned[..MaxParamLength] + "..." else cleaned
  }

  lemma TruncateKeepsShape(c: string)
    requires NoAdjacentSpace(c) && NoLineControls(c)
    ensures NoAdjacentSpace(Truncate(c)) && NoLineControls(Truncate(c))
  {
    if |c| > MaxParamLength {
      SliceKeepsShape(c, 0, MaxParamLength);
      EllipsisKeepsShape(c[..MaxParamLength]);
    }
  }

  lemma SliceKeepsShape(s: string, a: nat, b: nat)
    requires a <= b <= |s|
    requires NoAdjacentSpace(s) && NoLineControls(s)
    ensures NoAdjacentSpace(s[a..b]) && NoLineControls(s[a..b])
  {
    SliceNoAdjacent(s, a, b);
    forall k | 0 <= k < b - a ensures !IsLineControl(s[a..b][k]) {
      assert s[a..b][k] == s[a + k];
    }
  }

  lemma BlankControlsShape(text: string)
    ensures NoLineControls(BlankControls(text))
  {
    BlankControlsSpec(text);
  }

  /** The cleaned text has no newline, return or tab, no two adjacent whitespace characters, and no blank ends. */
  lemma CleanedShape(text: string)
    ensures NoAdjacentSpace(Cleaned(text)) && NoLineControls(Cleaned(text)) && IsStripped(Cleaned(text))
  {
    var b := BlankControls(text);
    BlankControlsShape(text);
    StripKeepsShape(Collapse(b));
  }

  lemma StripKeepsShape(c: string)
    requires NoAdjacentSpace(c) && NoLineControls(c)
    ensures NoAdjacentSpace(Strip(c)) && NoLineControls(Strip(c))
  {
    StripIsSlice(c);
    SliceShape(c, Strip(c), |c| - |LStrip(c)|);
  }

  lemma SliceShape(c: string, t: string, a: nat)
    requires a + |t| <= |c| && t == c[a..a + |t|]
    requires NoAdjacentSpace(c) && NoLineControls(c)
    ensures NoAdjacentSpace(t) && NoLineControls(t)
  {
    SliceKeepsShape(c, a, a + |t|);
  }

  /** Cleaning keeps the words of the text, as `str.split()` reads them. */
  lemma CleanedKeepsWords(text: string)
    ensures Words(Cleaned(text)) == Words(text)
  {
    var b := BlankControls(text);
    BlankControlsSpec(text);
    SameWords(text, b, []);
    CollapseKeepsWords(b, []);
    WordsOfStrip(Collapse(b));
  }

  /** Cleaning only changes whitespace. */
  lemma CleanedKeepsNonSpace(text: string)
    ensures NonSpace(Cleaned(text)) == NonSpace(text)
  {
    var b := BlankControls(text);
    StripKeepsNonSpace(Collapse(b));
    CollapseKeepsNonSpace(b);
    BlankControlsKeepsNonSpace(text);
  }

  lemma {:induction false} BlankControlsKeepsNonSpace(text: string)
    ensures NonSpace(BlankControls(text)) == NonSpace(text)
  {
    BlankControlsSpec(text);
    SameNonSpace(text, BlankControls(text));
  }

  /** Strings that agree except where both hold whitespace have the same non-whitespace characters. */
  lemma {:induction false} SameNonSpace(s: string, t: string)
    requires |s| == |t|
    requires forall k :: 0 <= k < |s| ==> s[k] == t[k] || (IsSpace(s[k]) && IsSpace(t[k]))
    ensures NonSpace(s) == NonSpace(t)
    decreases |s|
  {
    if s != [] {
      SameNonSpace(s[1..], t[1..]);
    }
  }

  /** Appending "..." to a clean text keeps it clean. */
  lemma EllipsisKeepsShape(cut: string)
    requires NoAdjacentSpace(cut) && NoLineControls(cut)
    ensures NoAdjacentSpace(cut + "...") && NoLineControls(cut + "...")
  {
    var r := cut + "...";
    forall k | 0 <= k < |r| - 1 ensures !SpacePair(r, k) {
      if k + 1 < |cut| {
        assert !SpacePair(cut, k);
        assert r[k] == cut[k] && r[k + 1] == cut[k + 1];
      } else {
        assert r[k + 1] == '.';
      }
    }
    forall k | 0 <= k < |r| ensures !IsLineControl(r[k]) {
      if k < |cut| {
        assert r[k] == cut[k];
      } else {
        assert r[k] == '.';
      }
    }
  }

  /**
   * A sanitised parameter has no newline, return or tab and no adjacent
   * whitespace; it keeps the text's words, and so its non-whitespace
   * characters, when it is not cut, and is cut to exactly 400 characters plus
   * "..." otherwise.
   */
  lemma SanitizeSpec(text: Option<string>)
    ensures var r := Sanitize(text);
      && NoLineControls(r) && NoAdjacentSpace(r) && |r| <= MaxParamLength + 3
      && (text.Some? && text.value != "" && |Cleaned(text.value)| <= MaxParamLength ==>
            r == Cleaned(text.value) && NonSpace(r) == NonSpace(text.value) && Words(r) == Words(text.value))
      && (text.Some? && text.value != "" && |Cleaned(text.value)| > MaxParamLength ==>
            |r| == MaxParamLength + 3 && r[..MaxParamLength] == Cleaned(text.value)[..MaxParamLength]
            && r[MaxParamLength..] == "...")
  {
    SanitizeShape(text);
    if text.Some? && text.value != "" {
      CleanedKeepsNonSpace(text.value);
      CleanedKeepsWords(text.value);
    }
  }

  lemma SanitizeShape(text: Option<string>)
    ensures NoLineControls(Sanitize(text)) && NoAdjacentSpace(Sanitize(text))
  {
    if text.None? || text.value == "" {
      assert Sanitize(text) == "";
    } else {
      var c := Cleaned(text.value);
      assert Sanitize(text) == Truncate(c);
      CleanedShape(text.value);
      TruncateKeepsShape(c);
    }
  }

  /** Cleaning is idempotent. */
  lemma CleanedIdempotent(text: string)
    ensures Cleaned(Cleaned(text)) == Cleaned(text)
  {
    var r := Cleaned(text);
    CleanedShape(text);
    BlankControlsOfClean(r);
    CollapseOfCollapsed(r);
    StripFixesStripped(r);
  }

  lemma SanitizeShort(t: string)
    requires t != "" && |Cleaned(t)| <= MaxParamLength
    ensures Sanitize(Some(t)) == Cleaned(t)
  {
  }

  lemma SanitizeNonEmpty(text: Option<string>)
    requires Sanitize(text) != "" && |Sanitize(text)| <= MaxParamLength
    ensures text.Some? && text.value != "" && |Cleaned(text.value)| <= MaxParamLength
  {
  }

  /** Sanitising a parameter that was not cut gives it back unchanged. */
  lemma SanitizeIdempotent(text: Option<string>)
    requires |Sanitize(text)| <= MaxParamLength
    ensures Sanitize(Some(Sanitize(text))) == Sanitize(text)
  {
    var r := Sanitize(text);
    if r != "" {
      SanitizeNonEmpty(text);
      SanitizeShort(text.value);
      CleanedIdempotent(text.value);
      SanitizeShort(r);
    }
  }

  lemma LocalNumberDigits()
    ensures AllDigits("9876543210") && KeepDigits("9876543210") == "9876543210"
  {
    assert AllDigits("9876543210");
    KeepDigitsOfDigits("9876543210");
  }

  lemma CountryPrefixDigits()
    ensures KeepDigits("+91 ") == "91"
  {
  }

  lemma PrefixedNumberPieces()
    ensures "+91 9876543210" == "+91 " + "9876543210"
    ensures "91" + "9876543210" == "919876543210"
  {
  }

  lemma PrefixedNumberDigits()
    ensures KeepDigits("+91 9876543210") == "919876543210"
  {
    LocalNumberDigits();
    CountryPrefixDigits();
    PrefixedNumberPieces();
    KeepDigitsConcat("+91 ", "9876543210");
  }

  lemma LocalNumberExample()
    ensures FormatPhone("9876543210") == "919876543210"
  {
    LocalNumberDigits();
    FormatTenDigits("9876543210");
    PrefixedNumberPieces();
  }

  lemma PrefixedNumberExample()
    ensures FormatPhone("+91 9876543210") == "919876543210"
  {
    PrefixedNumberDigits();
    FormatPhoneSpec("+91 9876543210");
    assert "919876543210"[..2] == "91";
  }
}
