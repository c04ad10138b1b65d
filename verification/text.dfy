/**
 * The pieces of Python's `str` API that the lab-report pipeline relies on:
 * whitespace classes, `strip`, ASCII `lower`, `in`, `replace`, `join`,
 * `split` on one character and `splitlines`.
 */
module Text {

  /** Python's `str.isspace()`; the regex class `\s` on `str` patterns matches the same characters. */
  predicate IsSpace(c: char) {
    || c == ' ' || ('\t' <= c <= '\r') || ('\U{001C}' <= c <= '\U{001F}')
    || c == '\U{0085}' || c == '\U{00A0}' || c == '\U{1680}'
    || ('\U{2000}' <= c <= '\U{200A}') || c == '\U{2028}' || c == '\U{2029}'
    || c == '\U{202F}' || c == '\U{205F}' || c == '\U{3000}'
  }

  /** The regex class `\d`, restricted to ASCII digits. */
  predicate IsDigit(c: char) {
    '0' <= c <= '9'
  }

  predicate IsAsciiLetter(c: char) {
    ('a' <= c <= 'z') || ('A' <= c <= 'Z')
  }

  /** A regex word character (`\w`), restricted to ASCII: letters, digits and '_'. */
  predicate IsWordChar(c: char) {
    IsAsciiLetter(c) || IsDigit(c) || c == '_'
  }

  predicate AllDigits(s: string) {
    forall k :: 0 <= k < |s| ==> IsDigit(s[k])
  }

  predicate AllSpace(s: string) {
    forall k :: 0 <= k < |s| ==> IsSpace(s[k])
  }

  /** A string `strip()` leaves unchanged: empty, or non-blank at both ends. */
  predicate IsStripped(s: string) {
    s == [] || (!IsSpace(s[0]) && !IsSpace(s[|s| - 1]))
  }

  /** Stripping a leading blank and then the rest strips the whole. */
  lemma LStripStep(s: string, r: string)
    requires |s| > 0 && IsSpace(s[0])
    requires |r| <= |s| - 1 && r == s[1..][|s| - 1 - |r|..]
    requires AllSpace(s[1..][..|s| - 1 - |r|])
    ensures |r| <= |s| && r == s[|s| - |r|..]
    ensures AllSpace(s[..|s| - |r|])
  {
    assert s[1..][|s| - 1 - |r|..] == s[|s| - |r|..];
    var n := |s| - |r|;
    forall k | 0 < k < n ensures IsSpace(s[..n][k]) {
      assert s[..n][k] == s[1..][..n - 1][k - 1];
    }
  }

  /** Stripping a trailing blank and then the rest strips the whole. */
  lemma RStripStep(s: string, r: string)
    requires |s| > 0 && IsSpace(s[|s| - 1])
    requires |r| <= |s| - 1 && r == s[..|s| - 1][..|r|]
    requires AllSpace(s[..|s| - 1][|r|..])
    ensures |r| <= |s| && r == s[..|r|]
    ensures AllSpace(s[|r|..])
  {
    var t := s[..|s| - 1];
    assert t[..|r|] == s[..|r|];
    forall k | 0 <= k < |s| - 1 - |r| ensures IsSpace(s[|r|..][k]) {
      assert s[|r|..][k] == t[|r|..][k];
    }
  }

  /** `str.lstrip()` */
  function LStrip(s: string): (r: string)
    ensures |r| <= |s| && r == s[|s| - |r|..]
    ensures AllSpace(s[..|s| - |r|])
    ensures r == [] || !IsSpace(r[0])
  {
    if |s| > 0 && IsSpace(s[0]) then
      var r := LStrip(s[1..]);
      LStripStep(s, r);
      r
    else s
  }

  /** `str.rstrip()` */
  function RStrip(s: string): (r: string)
    ensures |r| <= |s| && r == s[..|r|]
    ensures AllSpace(s[|r|..])
    ensures r == [] || !IsSpace(r[|r| - 1])
  {
    if |s| > 0 && IsSpace(s[|s| - 1]) then
      var r := RStrip(s[..|s| - 1]);
      RStripStep(s, r);
      r
    else s
  }

  /** `str.strip()` */
  function Strip(s: string): (r: string)
    ensures IsStripped(r)
  {
    RStrip(LStrip(s))
  }

  /** The characters of `s` that are not whitespace, in order. */
  function NonSpace(s: string): string {
    if s == [] then []
    else (if IsSpace(s[0]) then [] else [s[0]]) + NonSpace(s[1..])
  }

  lemma {:induction false} NonSpaceConcat(a: string, b: string)
    ensures NonSpace(a + b) == NonSpace(a) + NonSpace(b)
    decreases |a|
  {
    if a == [] {
      assert a + b == b;
    } else {
      assert (a + b)[1..] == a[1..] + b;
      NonSpaceConcat(a[1..], b);
    }
  }

  lemma {:induction false} NonSpaceOfBlank(s: string)
    requires AllSpace(s)
    ensures NonSpace(s) == []
    decreases |s|
  {
    if s != [] {
      NonSpaceOfBlank(s[1..]);
    }
  }

  /** Stripping only ever removes whitespace. */
  lemma StripKeepsNonSpace(s: string)
    ensures NonSpace(Strip(s)) == NonSpace(s)
  {
    LStripKeepsNonSpace(s);
    RStripKeepsNonSpace(LStrip(s));
  }

  lemma RStripKeepsNonSpace(l: string)
    ensures NonSpace(RStrip(l)) == NonSpace(l)
  {
    var r := RStrip(l);
    assert l == r + l[|r|..];
    NonSpaceConcat(r, l[|r|..]);
    NonSpaceOfBlank(l[|r|..]);
  }

  /** A slice of a slice is a slice of the whole. */
  lemma SliceOfSlice(s: string, p: nat, e: nat, i: nat, j: nat)
    requires p <= e <= |s| && i <= j <= e - p
    ensures s[p..e][i..j] == s[p + i..p + j]
  {
    assert forall k | 0 <= k < j - i :: s[p..e][i..j][k] == s[p + i + k];
  }

  /** A slice of a suffix is a slice of the whole. */
  lemma SliceOfSuffix(s: string, a: nat, n: nat)
    requires a + n <= |s|
    ensures s[a..][..n] == s[a..a + n]
  {
  }

  lemma {:induction false} LStripOfStripped(s: string)
    requires s == [] || !IsSpace(s[0])
    ensures LStrip(s) == s
  {
  }

  lemma {:induction false} RStripOfStripped(s: string)
    requires s == [] || !IsSpace(s[|s| - 1])
    ensures RStrip(s) == s
  {
  }

  /** `strip()` is the identity exactly on stripped strings. */
  lemma StripFixesStripped(s: string)
    ensures Strip(s) == s <==> IsStripped(s)
  {
    if IsStripped(s) {
      LStripOfStripped(s);
      RStripOfStripped(s);
    }
  }

  lemma {:induction false} RStripBlankTail(s: string, t: string)
    requires s == [] || !IsSpace(s[|s| - 1])
    requires AllSpace(t)
    ensures RStrip(s + t) == s
    decreases |t|
  {
    if t == [] {
      assert s + t == s;
      RStripOfStripped(s);
    } else {
      assert (s + t)[..|s + t| - 1] == s + t[..|t| - 1];
      RStripBlankTail(s, t[..|t| - 1]);
    }
  }

  /** Trailing blanks after a stripped, non-empty text are dropped by `strip()`. */
  lemma StripDropsTrailingBlank(s: string, t: string)
    requires s != [] && IsStripped(s) && AllSpace(t)
    ensures Strip(s + t) == s
  {
    LStripOfStripped(s + t);
    RStripBlankTail(s, t);
  }

  /** `strip()` keeps one contiguous slice of its input. */
  lemma StripIsSlice(s: string)
    ensures var a := |s| - |LStrip(s)|;
      a + |Strip(s)| <= |s| && Strip(s) == s[a..a + |Strip(s)|]
  {
    StripSliceOf(s, LStrip(s), Strip(s));
  }

  lemma StripSliceOf(s: string, l: string, t: string)
    requires l == LStrip(s) && t == Strip(s)
    ensures |s| - |l| + |t| <= |s| && t == s[|s| - |l|..|s| - |l| + |t|]
  {
    assert t == RStrip(l);
    PrefixOfSuffix(s, l, t);
  }

  /** A prefix of a suffix is a slice of the whole. */
  lemma PrefixOfSuffix(s: string, l: string, r: string)
    requires |l| <= |s| && l == s[|s| - |l|..] && |r| <= |l| && r == l[..|r|]
    ensures |s| - |l| + |r| <= |s| && r == s[|s| - |l|..|s| - |l| + |r|]
  {
    forall k | 0 <= k < |r| ensures r[k] == s[|s| - |l| + k] {
      assert r[k] == l[k];
    }
  }

  /** `strip()` adds no character. */
  lemma StripLacks(s: string, c: char)
    requires c !in s
    ensures c !in Strip(s)
  {
    StripIsSlice(s);
  }

  lemma LStripKeepsNonSpace(s: string)
    ensures NonSpace(LStrip(s)) == NonSpace(s)
  {
    var l := LStrip(s);
    var k := |s| - |l|;
    assert s == s[..k] + l;
    NonSpaceConcat(s[..k], l);
    NonSpaceOfBlank(s[..k]);
  }

  /** A text ending in a non-blank character keeps that end, and so is not emptied, by `lstrip()`. */
  lemma LStripKeepsEnd(s: string)
    requires s != [] && !IsSpace(s[|s| - 1])
    ensures LStrip(s) != [] && LStrip(s)[|LStrip(s)| - 1] == s[|s| - 1]
  {
    var l := LStrip(s);
    if l == [] {
      SpaceInSlice(s, 0, |s|, |s| - 1);
    }
  }

  lemma AppendAssoc(a: string, b: string, c: string)
    ensures (a + b) + c == a + (b + c)
  {
  }

  /** One blank on each side of a stripped text is cut by `strip()`. */
  lemma StripPadded(t: string)
    requires t != [] && IsStripped(t)
    ensures Strip([' '] + t + [' ']) == t
  {
    var s := [' '] + t + [' '];
    assert s[1..] == t + [' '];
    LStripOfStripped(t + [' ']);
    assert (t + [' '])[..|t|] == t;
    RStripOfStripped(t);
  }

  /** One leading blank before a stripped text is cut by `strip()`. */
  lemma StripLeftPadded(t: string)
    requires t != [] && IsStripped(t)
    ensures Strip([' '] + t) == t
  {
    assert ([' '] + t)[1..] == t;
    LStripOfStripped(t);
    RStripOfStripped(t);
  }

  /** `strip()` is idempotent. */
  lemma StripIdempotent(s: string)
    ensures Strip(Strip(s)) == Strip(s)
  {
    StripFixesStripped(Strip(s));
  }

  /** A non-blank text keeps its leading whitespace cut the same way when more text follows. */
  lemma {:induction false} LStripConcat(s: string, x: string)
    requires LStrip(s) != []
    ensures LStrip(s + x) == LStrip(s) + x
    decreases |s|
  {
    if IsSpace(s[0]) {
      assert (s + x)[1..] == s[1..] + x;
      LStripConcat(s[1..], x);
    }
  }

  lemma SpaceInSlice(s: string, i: int, j: int, k: int)
    ensures 0 <= i <= k < j <= |s| && AllSpace(s[i..j]) ==> IsSpace(s[k])
  {
    if 0 <= i <= k < j <= |s| {
      assert s[i..j][k - i] == s[k];
    }
  }

  /** `rstrip()` never cuts a non-blank character. */
  lemma RStripKeepsNonBlank(z: string, k: int)
    requires 0 <= k < |z| && !IsSpace(z[k])
    ensures k < |RStrip(z)|
  {
    SpaceInSlice(z, |RStrip(z)|, |z|, k);
  }

  /** Appending to a text never changes the start of its stripped form. */
  lemma StripAppendPrefix(s: string, x: string)
    ensures HasPrefix(Strip(s + x), Strip(s))
  {
    var y := LStrip(s);
    if RStrip(y) != [] {
      assert LStrip(s + x) == y + x by {
        LStripConcat(s, x);
      }
      RStripAppendPrefix(y, x);
    }
  }

  /** Appending never changes the start of the right-stripped form. */
  lemma RStripAppendPrefix(y: string, x: string)
    requires RStrip(y) != []
    ensures HasPrefix(RStrip(y + x), RStrip(y))
  {
    var r := RStrip(y);
    var z := y + x;
    assert z[|r| - 1] == r[|r| - 1];
    RStripKeepsNonBlank(z, |r| - 1);
    var rz := RStrip(z);
    assert rz[..|r|] == z[..|r|];
    assert z[..|r|] == y[..|r|];
  }

  lemma StripExtendsPrefix(r: string, s: string)
    requires HasPrefix(r, s)
    ensures HasPrefix(Strip(r), Strip(s))
  {
    assert r == s + r[|s|..];
    StripAppendPrefix(s, r[|s|..]);
  }

  /** A non-blank-ended text found in `s` is still found after stripping `s`. */
  lemma ContainsStrip(s: string, d: string)
    requires Contains(s, d) && d != [] && IsStripped(d)
    ensures Contains(Strip(s), d)
  {
    ContainsLStrip(s, d);
    ContainsRStrip(LStrip(s), d);
  }

  /** Leading blanks cannot hold the start of a text that starts with a non-blank. */
  lemma {:induction false} ContainsLStrip(s: string, d: string)
    requires Contains(s, d) && d != [] && !IsSpace(d[0])
    ensures Contains(LStrip(s), d)
    decreases |s|
  {
    if |s| > 0 && IsSpace(s[0]) {
      var i :| 0 <= i <= |s| && OccursAt(s, d, i);
      OccursAtChar(s, d, i, 0);
      OccursInTail(s, d, i);
      ContainsLStrip(s[1..], d);
    }
  }

  lemma OccursInTail(s: string, d: string, i: nat)
    requires 0 < i && OccursAt(s, d, i)
    ensures OccursAt(s[1..], d, i - 1)
  {
    assert s[1..][i - 1..i - 1 + |d|] == s[i..i + |d|];
  }

  /** Trailing blanks cannot hold the end of a text that ends with a non-blank. */
  lemma {:induction false} ContainsRStrip(s: string, d: string)
    requires Contains(s, d) && d != [] && !IsSpace(d[|d| - 1])
    ensures Contains(RStrip(s), d)
    decreases |s|
  {
    if |s| > 0 && IsSpace(s[|s| - 1]) {
      var i :| 0 <= i <= |s| && OccursAt(s, d, i);
      OccursAtChar(s, d, i, |d| - 1);
      OccursInFront(s, d, i);
      ContainsRStrip(s[..|s| - 1], d);
    }
  }

  lemma OccursInFront(s: string, d: string, i: nat)
    requires OccursAt(s, d, i) && i + |d| < |s|
    ensures OccursAt(s[..|s| - 1], d, i)
  {
    assert s[..|s| - 1][i..i + |d|] == s[i..i + |d|];
  }

  /** The pieces concatenated. */
  function Concat(parts: seq<string>): string
    decreases |parts|
  {
    if parts == [] then [] else parts[0] + Concat(parts[1..])
  }

  /** The non-blank characters of each piece, in order. */
  function NonSpaceAll(parts: seq<string>): string
    decreases |parts|
  {
    if parts == [] then [] else NonSpace(parts[0]) + NonSpaceAll(parts[1..])
  }

  lemma NonSpaceAllCons(parts: seq<string>)
    requires parts != []
    ensures NonSpaceAll(parts) == NonSpace(parts[0]) + NonSpaceAll(parts[1..])
  {
  }

  lemma {:induction false} NonSpaceConcatAll(parts: seq<string>)
    ensures NonSpace(Concat(parts)) == NonSpaceAll(parts)
    decreases |parts|
  {
    if parts == [] {
    } else {
      NonSpaceConcat(parts[0], Concat(parts[1..]));
      NonSpaceConcatAll(parts[1..]);
    }
  }

  lemma {:induction false} NonSpaceAllAppend(a: seq<string>, b: seq<string>)
    ensures NonSpaceAll(a + b) == NonSpaceAll(a) + NonSpaceAll(b)
    decreases |a|
  {
    if a == [] {
      assert a + b == b;
    } else {
      assert (a + b)[1..] == a[1..] + b;
      NonSpaceAllAppend(a[1..], b);
    }
  }

  /** Joining with a blank separator adds no non-blank character. */
  lemma {:induction false} NonSpaceJoin(sep: string, parts: seq<string>)
    requires AllSpace(sep)
    ensures NonSpace(Join(sep, parts)) == NonSpaceAll(parts)
    decreases |parts|
  {
    if |parts| == 1 {
      assert NonSpaceAll(parts[1..]) == [];
    } else if |parts| > 1 {
      NonSpaceConcat(parts[0] + sep, Join(sep, parts[1..]));
      NonSpaceConcat(parts[0], sep);
      NonSpaceOfBlank(sep);
      NonSpaceJoin(sep, parts[1..]);
    }
  }

  /** A lower-case letter absent from `s` in both cases is absent from `Lower(s)`. */
  lemma LowerLacks(s: string, c: char)
    requires 'a' <= c <= 'z' && c !in s && (c as int - 32) as char !in s
    ensures c !in Lower(s)
  {
    forall k | 0 <= k < |s| ensures Lower(s)[k] != c {
      assert s[k] != c;
    }
  }

  /** Python's `str.lower()` on ASCII letters; every other character is kept. */
  function LowerChar(c: char): char {
    if 'A' <= c <= 'Z' then (c as int + 32) as char else c
  }

  function Lower(s: string): (r: string)
    ensures |r| == |s|
    ensures forall k :: 0 <= k < |s| ==> r[k] == LowerChar(s[k])
  {
    if s == [] then [] else [LowerChar(s[0])] + Lower(s[1..])
  }

  predicate NoUpperCase(s: string) {
    forall k :: 0 <= k < |s| ==> !('A' <= s[k] <= 'Z')
  }

  /** `lower()` is the identity exactly on text without upper-case letters. */
  lemma LowerFixesLowerCase(s: string)
    ensures Lower(s) == s <==> NoUpperCase(s)
  {
    if !NoUpperCase(s) {
      var k :| 0 <= k < |s| && 'A' <= s[k] <= 'Z';
      assert Lower(s)[k] != s[k];
    }
  }

  predicate HasPrefix(s: string, p: string) {
    |p| <= |s| && s[..|p|] == p
  }

  predicate HasSuffix(s: string, p: string) {
    |p| <= |s| && s[|s| - |p|..] == p
  }

  /** `p` occurs in `s` starting at index `i`. */
  predicate OccursAt(s: string, p: string, i: int) {
    0 <= i && i + |p| <= |s| && s[i..i + |p|] == p
  }

  /** Python's `p in s` on strings. */
  predicate Contains(s: string, p: string) {
    exists i | 0 <= i <= |s| :: OccursAt(s, p, i)
  }

  lemma ContainsSelf(s: string)
    ensures Contains(s, s)
  {
    assert OccursAt(s, s, 0);
  }

  lemma ContainsExtend(a: string, b: string, p: string)
    requires Contains(a, p)
    ensures Contains(a + b, p) && Contains(b + a, p)
  {
    var i :| 0 <= i <= |a| && OccursAt(a, p, i);
    assert (a + b)[i..i + |p|] == a[i..i + |p|];
    assert OccursAt(a + b, p, i);
    assert (b + a)[|b| + i..|b| + i + |p|] == a[i..i + |p|];
    assert OccursAt(b + a, p, |b| + i);
  }

  lemma ContainsSuffix(a: string, p: string)
    ensures Contains(a + p, p)
  {
    assert (a + p)[|a|..|a| + |p|] == p;
    assert OccursAt(a + p, p, |a|);
  }

  lemma PrefixOfConcat(a: string, b: string)
    ensures HasPrefix(a + b, a)
  {
    assert (a + b)[..|a|] == a;
  }

  lemma SuffixOfConcat(a: string, b: string)
    ensures HasSuffix(a + b, b)
  {
    assert (a + b)[|a|..] == b;
  }

  /** A suffix of `a + b` no longer than `b` is a suffix of `b` alone. */
  lemma SuffixOfRight(a: string, b: string, p: string)
    ensures |p| <= |b| ==> (HasSuffix(a + b, p) <==> HasSuffix(b, p))
    ensures HasSuffix(b, p) ==> HasSuffix(a + b, p)
  {
    if |p| <= |b| {
      assert (a + b)[|a + b| - |p|..] == b[|b| - |p|..];
    }
  }

  lemma ContainsMiddle(a: string, p: string, b: string)
    ensures Contains(a + p + b, p)
  {
    assert (a + p + b)[|a|..|a| + |p|] == p;
    assert OccursAt(a + p + b, p, |a|);
  }

  lemma OccursAtChar(s: string, p: string, i: int, k: int)
    ensures OccursAt(s, p, i) && 0 <= k < |p| ==> s[i + k] == p[k]
  {
    if OccursAt(s, p, i) && 0 <= k < |p| {
      assert s[i..i + |p|][k] == s[i + k];
    }
  }

  /** A string lacking some character of `p` does not contain `p`. */
  lemma MissingCharNotContained(s: string, p: string, k: nat)
    requires k < |p| && p[k] !in s
    ensures !Contains(s, p)
  {
    forall i | 0 <= i <= |s| ensures !OccursAt(s, p, i) {
      OccursAtChar(s, p, i, k);
    }
  }

  /** First index of `c` in `s`. */
  function IndexOf(s: string, c: char): (i: nat)
    requires c in s
    ensures i < |s| && s[i] == c && c !in s[..i]
  {
    if s[0] == c then 0 else 1 + IndexOf(s[1..], c)
  }

  /**
   * Python's `s.replace(key, v)` for a non-empty `key`: occurrences are found
   * left to right and do not overlap.
   */
  function Replace(s: string, key: string, v: string): string
    requires key != []
    decreases |s|
  {
    if s == [] then []
    else if HasPrefix(s, key) then v + Replace(s[|key|..], key, v)
    else [s[0]] + Replace(s[1..], key, v)
  }

  /** Replacing one character by another maps the string character by character. */
  lemma {:induction false} ReplaceChar(s: string, c: char, d: char)
    ensures |Replace(s, [c], [d])| == |s|
    ensures forall k :: 0 <= k < |s| ==> Replace(s, [c], [d])[k] == (if s[k] == c then d else s[k])
    decreases |s|
  {
    if s != [] {
      assert HasPrefix(s, [c]) <==> s[0] == c;
      ReplaceChar(s[1..], c, d);
    }
  }

  /** `sep.join(parts)` */
  function Join(sep: string, parts: seq<string>): string {
    if |parts| == 0 then []
    else if |parts| == 1 then parts[0]
    else parts[0] + sep + Join(sep, parts[1..])
  }

  lemma {:induction false} JoinAppend(sep: string, parts: seq<string>, last: string)
    requires |parts| > 0
    ensures Join(sep, parts + [last]) == Join(sep, parts) + sep + last
    decreases |parts|
  {
    if |parts| == 1 {
      assert parts + [last] == [parts[0], last];
    } else {
      assert (parts + [last])[1..] == parts[1..] + [last];
      JoinAppend(sep, parts[1..], last);
    }
  }

  lemma {:induction false} JoinConcat(sep: string, a: seq<string>, b: seq<string>)
    requires |a| > 0 && |b| > 0
    ensures Join(sep, a + b) == Join(sep, a) + sep + Join(sep, b)
    decreases |a|
  {
    if |a| == 1 {
      assert (a + b)[1..] == b;
    } else {
      assert (a + b)[1..] == a[1..] + b;
      JoinConcat(sep, a[1..], b);
    }
  }

  /** A join of non-empty parts starts with the first part's first character and ends with the last part's last. */
  lemma {:induction false} JoinEnds(sep: string, parts: seq<string>)
    requires |parts| > 0 && forall k | 0 <= k < |parts| :: parts[k] != []
    ensures var j := Join(sep, parts); var l := parts[|parts| - 1];
      j != [] && j[0] == parts[0][0] && j[|j| - 1] == l[|l| - 1]
    decreases |parts|
  {
    if |parts| > 1 {
      JoinEnds(sep, parts[1..]);
    }
  }

  /** `s.split(c)` for a one-character separator. */
  function Split(s: string, c: char): (r: seq<string>)
    ensures |r| >= 1
    ensures forall k :: 0 <= k < |r| ==> c !in r[k]
    ensures Join([c], r) == s
    decreases |s|
  {
    if c !in s then [s]
    else
      var i := IndexOf(s, c);
      var rest := Split(s[i + 1..], c);
      assert s == s[..i] + [c] + s[i + 1..];
      [s[..i]] + rest
  }

  /** The line boundaries of Python's `str.splitlines()`. */
  predicate IsLineBreak(c: char) {
    || c == '\n' || c == '\r' || c == '\U{000B}' || c == '\U{000C}'
    || ('\U{001C}' <= c <= '\U{001E}') || c == '\U{0085}'
    || c == '\U{2028}' || c == '\U{2029}'
  }

  predicate HasLineBreak(s: string) {
    exists k | 0 <= k < |s| :: IsLineBreak(s[k])
  }

  function FirstLineBreak(s: string): (i: nat)
    requires HasLineBreak(s)
    ensures i < |s| && IsLineBreak(s[i])
    ensures forall k :: 0 <= k < i ==> !IsLineBreak(s[k])
  {
    if IsLineBreak(s[0]) then 0
    else
      assert HasLineBreak(s[1..]) by {
        var k :| 0 <= k < |s| && IsLineBreak(s[k]);
        assert s[1..][k - 1] == s[k];
      }
      1 + FirstLineBreak(s[1..])
  }

  /** Splitting text that starts with a separator-free part and a separator. */
  lemma SplitCons(a: string, c: char, rest: string)
    requires c !in a
    ensures Split(a + [c] + rest, c) == [a] + Split(rest, c)
  {
    var s := a + [c] + rest;
    assert s[|a|] == c;
    var i := IndexOf(s, c);
    assert s[..i] == a;
    assert s[i + 1..] == rest;
  }

  /** `split` undoes `join` when no part holds the separator. */
  lemma {:induction false} SplitJoin(parts: seq<string>, c: char)
    requires |parts| >= 1
    requires forall k :: 0 <= k < |parts| ==> c !in parts[k]
    ensures Split(Join([c], parts), c) == parts
    decreases |parts|
  {
    if |parts| > 1 {
      SplitCons(parts[0], c, Join([c], parts[1..]));
      SplitJoin(parts[1..], c);
      assert parts == [parts[0]] + parts[1..];
    }
  }

  /**
   * `str.splitlines()`: "\r\n" counts as one boundary and a boundary at the
   * very end does not start an empty last line.
   */
  function SplitLines(s: string): (r: seq<string>)
    ensures forall k, j :: 0 <= k < |r| && 0 <= j < |r[k]| ==> !IsLineBreak(r[k][j])
    ensures s == [] ==> r == []
    decreases |s|
  {
    if s == [] then []
    else if !HasLineBreak(s) then [s]
    else
      var i := FirstLineBreak(s);
      var skip := if s[i] == '\r' && i + 1 < |s| && s[i + 1] == '\n' then 2 else 1;
      [s[..i]] + SplitLines(s[i + skip..])
  }

  // ---------------------------------------------------------------------------
  // Words.

  /** `str.split()` read from `s`, `w` being the word under way. */
  function WordsFrom(s: string, w: string): seq<string>
    decreases |s|
  {
    if s == [] then (if w == [] then [] else [w])
    else if IsSpace(s[0]) then (if w == [] then [] else [w]) + WordsFrom(s[1..], [])
    else WordsFrom(s[1..], w + [s[0]])
  }

  /** `str.split()` with no separator: the maximal runs of non-whitespace characters, in order. */
  function Words(s: string): seq<string> {
    WordsFrom(s, [])
  }

  /** Leading whitespace starts no word. */
  lemma {:induction false} WordsSkipBlank(s: string)
    ensures WordsFrom(LStrip(s), []) == WordsFrom(s, [])
    decreases |s|
  {
    if s != [] && IsSpace(s[0]) {
      WordsSkipBlank(s[1..]);
    }
  }

  lemma {:induction false} WordsOfBlank(t: string)
    requires AllSpace(t)
    ensures WordsFrom(t, []) == []
    decreases |t|
  {
    if t != [] {
      assert forall k | 0 <= k < |t| - 1 :: t[1..][k] == t[k + 1];
      WordsOfBlank(t[1..]);
    }
  }

  /** Trailing whitespace only ends the word under way. */
  lemma {:induction false} WordsBlankTail(s: string, t: string, w: string)
    requires AllSpace(t)
    ensures WordsFrom(s + t, w) == WordsFrom(s, w)
    decreases |s|
  {
    if s == [] {
      assert s + t == t;
      if t != [] {
        WordsOfBlank(t);
        assert forall k | 0 <= k < |t| - 1 :: t[1..][k] == t[k + 1];
        WordsOfBlank(t[1..]);
      }
    } else {
      assert (s + t)[0] == s[0] && (s + t)[1..] == s[1..] + t;
      if IsSpace(s[0]) {
        WordsBlankTail(s[1..], t, []);
      } else {
        WordsBlankTail(s[1..], t, w + [s[0]]);
      }
    }
  }

  /** `strip()` keeps the words. */
  lemma WordsOfStrip(s: string)
    ensures Words(Strip(s)) == Words(s)
  {
    WordsSkipBlank(s);
    WordsOfRStrip(LStrip(s));
  }

  lemma {:induction false} WordsOfRStrip(l: string)
    ensures WordsFrom(RStrip(l), []) == WordsFrom(l, [])
  {
    var r := RStrip(l);
    var tail := l[|r|..];
    assert l == r + tail;
    WordsBlankTail(r, tail, []);
  }

  /** Strings that agree except where both hold whitespace have the same words. */
  lemma {:induction false} SameWords(s: string, t: string, w: string)
    requires |s| == |t|
    requires forall k :: 0 <= k < |s| ==> s[k] == t[k] || (IsSpace(s[k]) && IsSpace(t[k]))
    ensures WordsFrom(s, w) == WordsFrom(t, w)
    decreases |s|
  {
    if s != [] {
      assert forall k | 0 <= k < |s| - 1 :: s[1..][k] == s[k + 1] && t[1..][k] == t[k + 1];
      if IsSpace(s[0]) {
        SameWords(s[1..], t[1..], []);
      } else {
        SameWords(s[1..], t[1..], w + [s[0]]);
      }
    }
  }
}
