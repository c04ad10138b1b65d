/**
 * What one `pat.sub(_repl, text)` pass of the masking does, read as a scan:
 * the text cut into the matches the pass replaces and the characters it
 * copies. The scan is pinned down by a declarative description (each piece
 * sits where the text places it; a match piece is the whole match starting
 * there, and a character is copied only where no match starts), and both
 * passes of `Mask` are stated in its terms.
 */
module MaskingScan {
  import opened Wrappers
  import opened Text
  import opened Masking

  /** A piece of the scanned text: one copied character, or one whole match. */
  datatype Piece = Copy(c: char) | Hit(m: string)

  function PieceText(p: Piece): string {
    match p
    case Copy(c) => [c]
    case Hit(m) => m
  }

  /** The text the pieces cover, in order. */
  function Joined(ps: seq<Piece>): string
    decreases |ps|
  {
    if ps == [] then [] else PieceText(ps[0]) + Joined(ps[1..])
  }

  /** The matches among the pieces, in order: the entries a pass records. */
  function Hits(ps: seq<Piece>): seq<string>
    decreases |ps|
  {
    if ps == [] then []
    else match ps[0]
      case Copy(_) => Hits(ps[1..])
      case Hit(m) => [m] + Hits(ps[1..])
  }

  /** The pieces as tokens: a copied character stays plain, the `j`-th match becomes `Slot(n + j)`. */
  function Number(ps: seq<Piece>, n: nat): seq<Token>
    decreases |ps|
  {
    if ps == [] then []
    else match ps[0]
      case Copy(c) => [Plain(c)] + Number(ps[1..], n)
      case Hit(_) => [Slot(n)] + Number(ps[1..], n + 1)
  }

  /** Where `pat`'s match starting at each position of `s` ends, if one starts there. */
  function Ends(pat: Pattern, s: string): (ends: seq<Option<nat>>)
    ensures |ends| == |s| + 1
  {
    seq(|s| + 1, p requires 0 <= p <= |s| => MatchEnd(pat, s, p))
  }

  /** A table of match ends for a text of length `n`: each match ends after it starts and within the text. */
  predicate Proper(ends: seq<Option<nat>>, n: nat) {
    && |ends| == n + 1
    && forall p | 0 <= p <= n :: ends[p].Some? ==> p < ends[p].value <= n
  }

  /** A piece starting at `p` is what the substitution does there: the whole match, or a copy where none starts. */
  predicate PieceFits(ends: seq<Option<nat>>, p: int, piece: Piece) {
    0 <= p < |ends| &&
    match piece
    case Copy(_) => ends[p].None?
    case Hit(m) => ends[p] == Some(p + |m|)
  }

  /** Where each piece starts when the pieces are laid out from `i`. */
  function Starts(ps: seq<Piece>, i: nat): (r: seq<nat>)
    ensures |r| == |ps|
    decreases |ps|
  {
    if ps == [] then [] else [i] + Starts(ps[1..], i + |PieceText(ps[0])|)
  }

  /**
   * `ps` reads `s[i..]` the way a substitution with match ends `ends` does:
   * the pieces spell the text, and each piece fits where the pieces before it leave it.
   */
  predicate Leftmost(ends: seq<Option<nat>>, s: string, i: nat, ps: seq<Piece>)
    requires i <= |s|
  {
    && Joined(ps) == s[i..]
    && forall k | 0 <= k < |ps| :: FitsAt(ends, ps, i, k)
  }

  /** Piece `k` fits where the pieces before it, laid out from `i`, leave it. */
  predicate FitsAt(ends: seq<Option<nat>>, ps: seq<Piece>, i: nat, k: nat)
    requires k < |ps|
  {
    PieceFits(ends, Starts(ps, i)[k], ps[k])
  }

  /** The scan a substitution makes from `i`: a match where one starts, else one character. */
  function Scan(ends: seq<Option<nat>>, s: string, i: nat): seq<Piece>
    requires Proper(ends, |s|) && i <= |s|
    decreases |s| - i
  {
    if i == |s| then []
    else match ends[i]
      case Some(e) => [Hit(s[i..e])] + Scan(ends, s, e)
      case None => [Copy(s[i])] + Scan(ends, s, i + 1)
  }

  /** `ends` holds `pat`'s match ends on `s`. */
  predicate Agrees(pat: Pattern, s: string, ends: seq<Option<nat>>) {
    && |ends| == |s| + 1
    && forall p {:trigger MatchEnd(pat, s, p)} | 0 <= p <= |s| :: ends[p] == MatchEnd(pat, s, p)
  }

  lemma EndsAgree(pat: Pattern, s: string)
    ensures Agrees(pat, s, Ends(pat, s)) && Proper(Ends(pat, s), |s|)
  {
    var ends := Ends(pat, s);
    forall p | 0 <= p <= |s| ensures ends[p] == MatchEnd(pat, s, p) {
    }
    AgreesProper(pat, s, ends);
  }

  lemma AgreesProper(pat: Pattern, s: string, ends: seq<Option<nat>>)
    requires Agrees(pat, s, ends)
    ensures Proper(ends, |s|)
  {
    forall p | 0 <= p <= |s| && ends[p].Some? ensures p < ends[p].value <= |s| {
      assert ends[p] == MatchEnd(pat, s, p);
    }
  }

  // ---------------------------------------------------------------------------
  // Pieces laid side by side.

  lemma {:induction false} JoinedCons(p: Piece, ps: seq<Piece>)
    ensures Joined([p] + ps) == PieceText(p) + Joined(ps)
  {
    assert ([p] + ps)[0] == p && ([p] + ps)[1..] == ps;
  }

  lemma {:induction false} JoinedConcat(a: seq<Piece>, b: seq<Piece>)
    ensures Joined(a + b) == Joined(a) + Joined(b)
    decreases |a|
  {
    if a == [] {
      assert a + b == b;
    } else {
      assert a + b == [a[0]] + (a[1..] + b);
      assert a == [a[0]] + a[1..];
      JoinedCons(a[0], a[1..] + b);
      JoinedConcat(a[1..], b);
    }
  }

  lemma {:induction false} HitsConcat(a: seq<Piece>, b: seq<Piece>)
    ensures Hits(a + b) == Hits(a) + Hits(b)
    decreases |a|
  {
    if a == [] {
      assert a + b == b;
    } else {
      assert (a + b)[0] == a[0] && (a + b)[1..] == a[1..] + b;
      HitsConcat(a[1..], b);
    }
  }

  lemma {:induction false} NumberConcat(a: seq<Piece>, b: seq<Piece>, n: nat)
    ensures Number(a + b, n) == Number(a, n) + Number(b, n + |Hits(a)|)
    decreases |a|
  {
    if a == [] {
      assert a + b == b;
    } else {
      assert (a + b)[0] == a[0] && (a + b)[1..] == a[1..] + b;
      match a[0]
      case Copy(_) =>
        NumberConcat(a[1..], b, n);
      case Hit(_) =>
        NumberConcat(a[1..], b, n + 1);
    }
  }

  /** A piece that fits covers something: a copy is one character, and a match is not empty. */
  lemma PieceNonEmpty(ends: seq<Option<nat>>, n: nat, p: int, piece: Piece)
    requires Proper(ends, n) && PieceFits(ends, p, piece)
    ensures PieceText(piece) != []
  {
  }

  // ---------------------------------------------------------------------------
  // The scan is the reading, and the only one.

  /** The pieces after the first start where the first one ends. */
  lemma {:induction false} StartsCons(p: Piece, ps: seq<Piece>, i: nat)
    ensures Starts([p] + ps, i) == [i] + Starts(ps, i + |PieceText(p)|)
  {
    assert ([p] + ps)[0] == p && ([p] + ps)[1..] == ps;
  }

  lemma {:induction false} LeftmostHead(ends: seq<Option<nat>>, s: string, i: nat, qs: seq<Piece>)
    requires i <= |s| && qs != [] && Leftmost(ends, s, i, qs)
    ensures var j := i + |PieceText(qs[0])|;
      j <= |s| && s[i..j] == PieceText(qs[0]) && PieceFits(ends, i, qs[0]) && Leftmost(ends, s, j, qs[1..])
  {
    assert qs == [qs[0]] + qs[1..];
    JoinedHead(s, i, qs[0], qs[1..]);
    FitsTail(ends, i, i + |PieceText(qs[0])|, qs, qs[1..]);
  }

  lemma {:induction false} LeftmostPrepend(ends: seq<Option<nat>>, s: string, i: nat, p: Piece, ps: seq<Piece>)
    requires var j := i + |PieceText(p)|;
      j <= |s| && s[i..j] == PieceText(p) && PieceFits(ends, i, p) && Leftmost(ends, s, j, ps)
    ensures Leftmost(ends, s, i, [p] + ps)
  {
    JoinedPrepend(s, i, p, ps);
    FitsPrepend(ends, i, i + |PieceText(p)|, p, ps, [p] + ps);
  }

  lemma {:induction false} JoinedHead(s: string, i: nat, p: Piece, ps: seq<Piece>)
    requires i <= |s| && Joined([p] + ps) == s[i..]
    ensures var j := i + |PieceText(p)|;
      j <= |s| && s[i..j] == PieceText(p) && Joined(ps) == s[j..]
  {
    var w := PieceText(p);
    JoinedCons(p, ps);
    assert s[i..][..|w|] == w;
    assert s[i + |w|..] == s[i..][|w|..];
  }

  lemma {:induction false} JoinedPrepend(s: string, i: nat, p: Piece, ps: seq<Piece>)
    requires var j := i + |PieceText(p)|;
      j <= |s| && s[i..j] == PieceText(p) && Joined(ps) == s[j..]
    ensures Joined([p] + ps) == s[i..]
  {
    JoinedCons(p, ps);
    assert s[i..] == s[i..i + |PieceText(p)|] + s[i + |PieceText(p)|..];
  }

  lemma {:induction false} FitsTail(ends: seq<Option<nat>>, i: nat, j: nat, qs: seq<Piece>, ps: seq<Piece>)
    requires qs != [] && ps == qs[1..] && j == i + |PieceText(qs[0])|
    requires forall k | 0 <= k < |qs| :: FitsAt(ends, qs, i, k)
    ensures PieceFits(ends, i, qs[0])
    ensures forall k | 0 <= k < |ps| :: FitsAt(ends, ps, j, k)
  {
    var p := qs[0];
    assert qs == [p] + ps;
    StartsCons(p, ps, i);
    assert FitsAt(ends, qs, i, 0);
    forall k | 0 <= k < |ps| ensures FitsAt(ends, ps, j, k) {
      assert FitsAt(ends, qs, i, k + 1);
    }
  }

  lemma {:induction false} FitsPrepend(ends: seq<Option<nat>>, i: nat, j: nat, p: Piece, ps: seq<Piece>, qs: seq<Piece>)
    requires qs == [p] + ps && j == i + |PieceText(p)| && PieceFits(ends, i, p)
    requires forall k | 0 <= k < |ps| :: FitsAt(ends, ps, j, k)
    ensures forall k | 0 <= k < |qs| :: FitsAt(ends, qs, i, k)
  {
    StartsCons(p, ps, i);
    assert qs[0] == p && qs[1..] == ps;
    forall k | 0 <= k < |qs| ensures FitsAt(ends, qs, i, k) {
      if k > 0 {
        assert FitsAt(ends, ps, j, k - 1);
      }
    }
  }

  /** The scan reads the text the way a substitution does. */
  lemma {:induction false} ScanLeftmost(ends: seq<Option<nat>>, s: string, i: nat)
    requires Proper(ends, |s|) && i <= |s|
    ensures Leftmost(ends, s, i, Scan(ends, s, i))
    decreases |s| - i, 1
  {
    if i == |s| {
      assert s[i..] == [];
    } else {
      ScanLeftmostCons(ends, s, i);
    }
  }

  lemma {:induction false} ScanLeftmostCons(ends: seq<Option<nat>>, s: string, i: nat)
    requires Proper(ends, |s|) && i < |s|
    ensures Leftmost(ends, s, i, Scan(ends, s, i))
    decreases |s| - i, 0
  {
    match ends[i]
    case Some(e) =>
      ScanLeftmost(ends, s, e);
      LeftmostPrepend(ends, s, i, Hit(s[i..e]), Scan(ends, s, e));
    case None =>
      ScanLeftmost(ends, s, i + 1);
      LeftmostPrepend(ends, s, i, Copy(s[i]), Scan(ends, s, i + 1));
  }

  /** No other reading exists: a reading of `s[i..]` is the scan. */
  lemma {:induction false} LeftmostUnique(ends: seq<Option<nat>>, s: string, i: nat, ps: seq<Piece>)
    requires Proper(ends, |s|) && i <= |s| && Leftmost(ends, s, i, ps)
    ensures ps == Scan(ends, s, i)
    decreases |ps|, 1
  {
    if ps == [] {
      assert s[i..] == [];
    } else {
      LeftmostUniqueCons(ends, s, i, ps);
    }
  }

  lemma {:induction false} LeftmostUniqueCons(ends: seq<Option<nat>>, s: string, i: nat, ps: seq<Piece>)
    requires Proper(ends, |s|) && i <= |s| && ps != [] && Leftmost(ends, s, i, ps)
    ensures ps == Scan(ends, s, i)
    decreases |ps|, 0
  {
    LeftmostHead(ends, s, i, ps);
    LeftmostUnique(ends, s, i + |PieceText(ps[0])|, ps[1..]);
    ScanHead(ends, s, i, ps[0], ps[1..]);
    assert ps == [ps[0]] + ps[1..];
  }

  /** A piece that fits at `i`, followed by the scan from where it ends, is the scan from `i`. */
  lemma {:induction false} ScanHead(ends: seq<Option<nat>>, s: string, i: nat, p: Piece, rest: seq<Piece>)
    requires Proper(ends, |s|) && i <= |s| && PieceFits(ends, i, p)
    requires var j := i + |PieceText(p)|;
      j <= |s| && s[i..j] == PieceText(p) && rest == Scan(ends, s, j)
    ensures [p] + rest == Scan(ends, s, i)
  {
    PieceNonEmpty(ends, |s|, i, p);
    var j := i + |PieceText(p)|;
    match p
    case Hit(m) =>
      assert ends[i] == Some(j) && s[i..j] == m;
    case Copy(c) =>
      assert s[i..j][0] == s[i];
  }

  // ---------------------------------------------------------------------------
  // What a substitution writes and records.

  lemma {:induction false} RenderTokenCons(t: Token, ts: seq<Token>)
    ensures Render([t] + ts) == TokenText(t) + Render(ts)
  {
    assert ([t] + ts)[0] == t && ([t] + ts)[1..] == ts;
  }

  /**
   * A substitution from `i` writes the scan with its `j`-th match replaced by
   * placeholder `|masks| + j`, and records the scan's matches, in order, after `masks`.
   */
  lemma {:induction false} SubFromScan(pat: Pattern, s: string, ends: seq<Option<nat>>, i: nat, masks: seq<string>)
    requires Agrees(pat, s, ends) && Proper(ends, |s|) && i <= |s|
    ensures var ps := Scan(ends, s, i);
      SubFrom(pat, s, i, masks) == Masked(Render(Number(ps, |masks|)), masks + Hits(ps))
    decreases |s| - i, 1
  {
    if i < |s| {
      SubFromScanCons(pat, s, ends, i, masks);
    }
  }

  lemma {:induction false} SubFromScanCons(pat: Pattern, s: string, ends: seq<Option<nat>>, i: nat, masks: seq<string>)
    requires Agrees(pat, s, ends) && Proper(ends, |s|) && i < |s|
    ensures var ps := Scan(ends, s, i);
      SubFrom(pat, s, i, masks) == Masked(Render(Number(ps, |masks|)), masks + Hits(ps))
    decreases |s| - i, 0
  {
    match MatchEnd(pat, s, i)
    case Some(e) =>
      var m := s[i..e];
      SubFromScan(pat, s, ends, e, masks + [m]);
      SubFromScanHit(pat, s, ends, i, e, masks);
    case None =>
      SubFromScan(pat, s, ends, i + 1, masks);
      SubFromScanCopy(pat, s, ends, i, masks);
  }

  lemma {:induction false} SubFromScanHit(pat: Pattern, s: string, ends: seq<Option<nat>>, i: nat, e: nat, masks: seq<string>)
    requires Agrees(pat, s, ends) && Proper(ends, |s|) && i < |s| && MatchEnd(pat, s, i) == Some(e)
    requires var ps := Scan(ends, s, e); var more := masks + [s[i..e]];
      SubFrom(pat, s, e, more) == Masked(Render(Number(ps, |more|)), more + Hits(ps))
    ensures var ps := Scan(ends, s, i);
      SubFrom(pat, s, i, masks) == Masked(Render(Number(ps, |masks|)), masks + Hits(ps))
  {
    var m := s[i..e];
    SubFromMatch(pat, s, i, e, masks);
    assert ends[i] == Some(e);
    ScanHit(ends, s, i, e);
    WritesHit(SubFrom(pat, s, i, masks), SubFrom(pat, s, e, masks + [m]), masks, m, Scan(ends, s, e));
  }

  lemma {:induction false} SubFromScanCopy(pat: Pattern, s: string, ends: seq<Option<nat>>, i: nat, masks: seq<string>)
    requires Agrees(pat, s, ends) && Proper(ends, |s|) && i < |s| && MatchEnd(pat, s, i).None?
    requires var ps := Scan(ends, s, i + 1);
      SubFrom(pat, s, i + 1, masks) == Masked(Render(Number(ps, |masks|)), masks + Hits(ps))
    ensures var ps := Scan(ends, s, i);
      SubFrom(pat, s, i, masks) == Masked(Render(Number(ps, |masks|)), masks + Hits(ps))
  {
    SubFromCopy(pat, s, i, masks);
    assert ends[i].None?;
    ScanCopy(ends, s, i);
    WritesCopy(SubFrom(pat, s, i, masks), SubFrom(pat, s, i + 1, masks), masks, s[i], Scan(ends, s, i + 1));
  }

  lemma {:induction false} ScanHit(ends: seq<Option<nat>>, s: string, i: nat, e: nat)
    requires Proper(ends, |s|) && i < |s| && ends[i] == Some(e)
    ensures Scan(ends, s, i) == [Hit(s[i..e])] + Scan(ends, s, e)
  {
  }

  lemma {:induction false} ScanCopy(ends: seq<Option<nat>>, s: string, i: nat)
    requires Proper(ends, |s|) && i < |s| && ends[i].None?
    ensures Scan(ends, s, i) == [Copy(s[i])] + Scan(ends, s, i + 1)
  {
  }

  /** A match written as the next placeholder, before what the rest of the scan writes. */
  lemma {:induction false} WritesHit(big: Masked, r: Masked, masks: seq<string>, m: string, rest: seq<Piece>)
    requires big == Masked(Placeholder(|masks|) + r.text, r.masks)
    requires r == Masked(Render(Number(rest, |masks| + 1)), masks + [m] + Hits(rest))
    ensures big == Masked(Render(Number([Hit(m)] + rest, |masks|)), masks + Hits([Hit(m)] + rest))
  {
    NumberHit(m, rest, |masks|);
    HitsHit(m, rest, masks);
  }

  lemma {:induction false} NumberHit(m: string, rest: seq<Piece>, n: nat)
    ensures Render(Number([Hit(m)] + rest, n)) == Placeholder(n) + Render(Number(rest, n + 1))
  {
    assert ([Hit(m)] + rest)[0] == Hit(m) && ([Hit(m)] + rest)[1..] == rest;
    RenderTokenCons(Slot(n), Number(rest, n + 1));
  }

  lemma {:induction false} HitsHit(m: string, rest: seq<Piece>, masks: seq<string>)
    ensures masks + Hits([Hit(m)] + rest) == masks + [m] + Hits(rest)
  {
    assert ([Hit(m)] + rest)[0] == Hit(m) && ([Hit(m)] + rest)[1..] == rest;
    assert masks + [m] + Hits(rest) == masks + ([m] + Hits(rest));
  }

  /** A character copied before what the rest of the scan writes. */
  lemma {:induction false} WritesCopy(big: Masked, r: Masked, masks: seq<string>, c: char, rest: seq<Piece>)
    requires big == Masked([c] + r.text, r.masks)
    requires r == Masked(Render(Number(rest, |masks|)), masks + Hits(rest))
    ensures big == Masked(Render(Number([Copy(c)] + rest, |masks|)), masks + Hits([Copy(c)] + rest))
  {
    assert ([Copy(c)] + rest)[0] == Copy(c) && ([Copy(c)] + rest)[1..] == rest;
    RenderTokenCons(Plain(c), Number(rest, |masks|));
  }

  /**
   * Token by token: piece `k` is a plain copy of its character, or the slot
   * numbered after the matches before it, whose entry is that match.
   */
  lemma {:induction false} NumberAt(ps: seq<Piece>, n: nat, k: nat)
    requires k < |ps|
    ensures |Number(ps, n)| == |ps|
    ensures ps[k].Copy? ==> Number(ps, n)[k] == Plain(ps[k].c)
    ensures ps[k].Hit? ==> var j := |Hits(ps[..k])|;
      Number(ps, n)[k] == Slot(n + j) && j < |Hits(ps)| && Hits(ps)[j] == ps[k].m
  {
    var a, b := ps[..k], ps[k..];
    assert ps == a + b;
    NumberConcat(a, b, n);
    HitsConcat(a, b);
    NumberLength(a, n);
    NumberLength(b, n + |Hits(a)|);
    assert b[0] == ps[k];
  }

  lemma {:induction false} NumberLength(ps: seq<Piece>, n: nat)
    ensures |Number(ps, n)| == |ps|
    decreases |ps|
  {
    if ps != [] {
      match ps[0]
      case Copy(_) =>
        NumberLength(ps[1..], n);
      case Hit(_) =>
        NumberLength(ps[1..], n + 1);
    }
  }

  /**
   * `mask_numbers_and_units`: the range pass numbers its matches from 0; the
   * value pass scans the range-masked text and numbers its matches after
   * them; the entries are the range matches, then the value matches.
   */
  lemma MaskScans(t: string)
    ensures Proper(Ends(RangePattern, t), |t|)
    ensures var ranges := Scan(Ends(RangePattern, t), t, 0);
      var ranged := Render(Number(ranges, 0));
      Proper(Ends(ValuePattern, ranged), |ranged|) &&
      var values := Scan(Ends(ValuePattern, ranged), ranged, 0);
      Mask(t) == Masked(Render(Number(values, |Hits(ranges)|)), Hits(ranges) + Hits(values))
  {
    EndsAgree(RangePattern, t);
    SubFromScan(RangePattern, t, Ends(RangePattern, t), 0, []);
    var ranges := Scan(Ends(RangePattern, t), t, 0);
    var ranged := Render(Number(ranges, 0));
    assert [] + Hits(ranges) == Hits(ranges);
    EndsAgree(ValuePattern, ranged);
    SubFromScan(ValuePattern, ranged, Ends(ValuePattern, ranged), 0, Hits(ranges));
  }

  // ---------------------------------------------------------------------------
  // A report line, masked.

  predicate AllIn(s: string, i: nat, j: nat, k: CharClass)
    requires i <= j <= |s|
  {
    forall q | i <= q < j :: InClass(k, s[q])
  }

  /** No digit at a word boundary: no match of either pattern can start here. */
  predicate NoStart(s: string, q: nat)
    requires q < |s|
  {
    !(IsDigit(s[q]) && Boundary(s, q))
  }

  lemma RunEndAt(s: string, i: nat, k: CharClass, j: nat)
    requires i <= j <= |s| && AllIn(s, i, j, k)
    requires j == |s| || !InClass(k, s[j])
    ensures RunEnd(s, i, k) == j
  {
  }

  /** A digit run not followed by a point is the whole number. */
  lemma NumberEndAt(s: string, i: nat, a: nat)
    requires i < a < |s| && AllIn(s, i, a, Digits) && !IsDigit(s[a]) && s[a] != '.'
    ensures NumberEnd(s, i) == a
  {
    RunEndAt(s, i, Digits, a);
  }

  /** One blank, then a unit up to `d`. */
  lemma BlankUnitAt(s: string, b: nat, d: nat)
    requires b + 1 < d <= |s| && s[b] == ' ' && AllIn(s, b + 1, d, Units)
    requires d == |s| || !IsUnitChar(s[d])
    ensures RunEnd(s, b, Spaces) == b + 1 && RunEnd(s, b + 1, Units) == d
  {
    RunEndAt(s, b, Spaces, b + 1);
    RunEndAt(s, b + 1, Units, d);
  }

  /** After the dash at `a`: the second number up to `b`, one blank, and a unit up to `d`. */
  lemma RangeTailAt(s: string, a: nat, b: nat, d: nat)
    requires a + 1 < b && b + 1 < d <= |s|
    requires AllIn(s, a + 1, b, Digits) && s[b] == ' ' && AllIn(s, b + 1, d, Units)
    requires d == |s| || !IsUnitChar(s[d])
    ensures RangeTail(s, a) == Some(d)
  {
    RunEndAt(s, a + 1, Spaces, a + 1);
    NumberEndAt(s, a + 1, b);
    BlankUnitAt(s, b, d);
  }

  /** A range written `digits-digits unit`, at a word boundary, is matched whole. */
  lemma RangeAt(s: string, i: nat, a: nat, b: nat, d: nat)
    requires i < a && a + 1 < b && b + 1 < d <= |s|
    requires i == 0 || !IsWordChar(s[i - 1])
    requires AllIn(s, i, a, Digits) && IsDash(s[a])
    requires AllIn(s, a + 1, b, Digits) && s[b] == ' ' && AllIn(s, b + 1, d, Units)
    requires d == |s| || !IsUnitChar(s[d])
    ensures MatchEnd(RangePattern, s, i) == Some(d)
  {
    NumberEndAt(s, i, a);
    RunEndAt(s, a, Spaces, a);
    RangeTailAt(s, a, b, d);
  }

  /** A number and one blank followed by no dash is no range. */
  lemma NoRangeAt(s: string, i: nat, a: nat)
    requires i < a && a + 1 < |s| && AllIn(s, i, a, Digits) && s[a] == ' '
    requires !IsSpace(s[a + 1]) && !IsDash(s[a + 1])
    ensures MatchEnd(RangePattern, s, i).None?
  {
    NumberEndAt(s, i, a);
    RunEndAt(s, a, Spaces, a + 1);
  }

  /** A value written `digits unit`, at word boundaries on both sides, is matched whole. */
  lemma ValueAt(s: string, i: nat, a: nat, d: nat)
    requires i < a && a + 1 < d <= |s|
    requires i == 0 || !IsWordChar(s[i - 1])
    requires AllIn(s, i, a, Digits) && s[a] == ' ' && AllIn(s, a + 1, d, Units)
    requires d == |s| || !IsUnitChar(s[d])
    requires IsAsciiLetter(s[d - 1]) && (d == |s| || !IsWordChar(s[d]))
    ensures MatchEnd(ValuePattern, s, i) == Some(d)
  {
    NumberEndAt(s, i, a);
    BlankUnitAt(s, a, d);
    assert Boundary(s, d);
  }

  /** Copies up to a match at `i` ending at `e`, then copies to the end: one entry, one placeholder. */
  lemma {:induction false} SubFromOneMatch(pat: Pattern, s: string, lo: nat, i: nat, e: nat, masks: seq<string>)
    requires lo <= i < e <= |s|
    requires forall q | lo <= q < i :: NoStart(s, q)
    requires MatchEnd(pat, s, i) == Some(e)
    requires forall q | e <= q < |s| :: NoStart(s, q)
    ensures SubFrom(pat, s, lo, masks) == Masked(s[lo..i] + Placeholder(|masks|) + s[e..], masks + [s[i..e]])
  {
    var more := masks + [s[i..e]];
    var a, b := SubFrom(pat, s, i, masks), SubFrom(pat, s, e, more);
    assert SubFrom(pat, s, lo, masks) == Masked(s[lo..i] + a.text, a.masks) by {
      SubFromCopyRun(pat, s, lo, i, masks);
    }
    assert a == Masked(Placeholder(|masks|) + b.text, b.masks) by {
      SubFromMatch(pat, s, i, e, masks);
    }
    assert b == Masked(s[e..], more) by {
      SubFromCopyRun(pat, s, e, |s|, more);
      assert SubFrom(pat, s, |s|, more) == Masked([], more);
      assert s[e..|s|] + [] == s[e..];
    }
  }

  /** Where no digit at a word boundary lies in `[i, j)`, no match starts and a substitution copies `s[i..j]`. */
  lemma {:induction false} SubFromCopyRun(pat: Pattern, s: string, i: nat, j: nat, masks: seq<string>)
    requires i <= j <= |s|
    requires forall q | i <= q < j :: NoStart(s, q)
    ensures var r := SubFrom(pat, s, j, masks);
      SubFrom(pat, s, i, masks) == Masked(s[i..j] + r.text, r.masks)
    decreases j - i, 1
  {
    if i < j {
      SubFromCopyRunCons(pat, s, i, j, masks);
    } else {
      CopyNothing(SubFrom(pat, s, i, masks), SubFrom(pat, s, j, masks), s, i, j);
    }
  }

  lemma {:induction false} SubFromCopyRunCons(pat: Pattern, s: string, i: nat, j: nat, masks: seq<string>)
    requires i < j <= |s|
    requires forall q | i <= q < j :: NoStart(s, q)
    ensures var r := SubFrom(pat, s, j, masks);
      SubFrom(pat, s, i, masks) == Masked(s[i..j] + r.text, r.masks)
    decreases j - i, 0
  {
    assert NoStart(s, i);
    SubFromNoMatch(pat, s, i, masks);
    SubFromCopyRun(pat, s, i + 1, j, masks);
    CopyCons(SubFrom(pat, s, i, masks), SubFrom(pat, s, i + 1, masks), SubFrom(pat, s, j, masks), s, i, j);
  }

  lemma CopyFront(big: Masked, r: Masked, c: char, a: string, ca: string, p: string, b: string)
    requires big == Masked([c] + r.text, r.masks) && r.text == a + p + b && ca == [c] + a
    ensures big == Masked(ca + p + b, r.masks)
  {
  }

  /** "134 mg" is followed by no dash: no range starts at the value. */
  lemma RangeLineValue(t: string)
    requires t == "134 mg/dL (70-110 mg/dL)"
    ensures MatchEnd(RangePattern, t, 0).None?
  {
    NoRangeAt(t, 0, 3);
  }

  lemma RangeLineRange(t: string)
    requires t == "134 mg/dL (70-110 mg/dL)"
    ensures MatchEnd(RangePattern, t, 11) == Some(23)
  {
    RangeAt(t, 11, 13, 17, 23);
  }

  lemma RangeLineNoStarts(t: string)
    requires t == "134 mg/dL (70-110 mg/dL)"
    ensures forall q | 1 <= q < 11 :: NoStart(t, q)
    ensures forall q | 23 <= q < |t| :: NoStart(t, q)
  {
  }

  lemma RangeLineText(t: string)
    requires t == "134 mg/dL (70-110 mg/dL)"
    ensures t[..11] == [t[0]] + t[1..11]
    ensures t[..11] + Placeholder(0) + t[23..] == "134 mg/dL (__VAL_0__)"
    ensures t[11..23] == "70-110 mg/dL"
  {
    assert Placeholder(0) == "__VAL_0__";
    assert t[..11] == "134 mg/dL (";
    assert t[23..] == ")";
    assert t[11..23] == "70-110 mg/dL";
  }

  /** The range pass on a report line: the reference range becomes `__VAL_0__`; "134 mg/dL" is no range. */
  lemma RangePassExample(t: string)
    requires t == "134 mg/dL (70-110 mg/dL)"
    ensures SubFrom(RangePattern, t, 0, []) == Masked("134 mg/dL (__VAL_0__)", ["70-110 mg/dL"])
  {
    RangeLineNoStarts(t);
    RangeLineText(t);
    var r := SubFrom(RangePattern, t, 1, []);
    assert SubFrom(RangePattern, t, 0, []) == Masked([t[0]] + r.text, r.masks) by {
      RangeLineValue(t);
      SubFromCopy(RangePattern, t, 0, []);
    }
    assert r == Masked(t[1..11] + Placeholder(0) + t[23..], [t[11..23]]) by {
      RangeLineRange(t);
      SubFromOneMatch(RangePattern, t, 1, 11, 23, []);
    }
    CopyFront(SubFrom(RangePattern, t, 0, []), r, t[0], t[1..11], t[..11], Placeholder(0), t[23..]);
  }

  lemma ValueLineMatch(u: string)
    requires u == "134 mg/dL (__VAL_0__)"
    ensures MatchEnd(ValuePattern, u, 0) == Some(9)
  {
    ValueAt(u, 0, 3, 9);
  }

  /** The digit of `__VAL_0__` sits inside a word, so no value starts there. */
  lemma ValueLineNoStarts(u: string)
    requires u == "134 mg/dL (__VAL_0__)"
    ensures forall q | 9 <= q < |u| :: NoStart(u, q)
  {
  }

  lemma ValueLineText(u: string, masks: seq<string>)
    requires u == "134 mg/dL (__VAL_0__)" && masks == ["70-110 mg/dL"]
    ensures u[0..0] + Placeholder(|masks|) + u[9..] == "__VAL_1__ (__VAL_0__)"
    ensures masks + [u[0..9]] == ["70-110 mg/dL", "134 mg/dL"]
  {
    assert Placeholder(1) == "__VAL_1__";
    assert u[0..0] == [];
    assert u[9..] == " (__VAL_0__)";
    assert u[0..9] == "134 mg/dL";
  }

  /** The value pass after it: "134 mg/dL" becomes `__VAL_1__`; the digit inside `__VAL_0__` is left alone. */
  lemma ValuePassExample(u: string, masks: seq<string>)
    requires u == "134 mg/dL (__VAL_0__)" && masks == ["70-110 mg/dL"]
    ensures SubFrom(ValuePattern, u, 0, masks) == Masked("__VAL_1__ (__VAL_0__)", ["70-110 mg/dL", "134 mg/dL"])
  {
    ValueLineMatch(u);
    ValueLineNoStarts(u);
    SubFromOneMatch(ValuePattern, u, 0, 0, 9, masks);
    ValueLineText(u, masks);
  }

  /**
   * A report line masked: the range is masked first and gets placeholder 0,
   * the value gets placeholder 1, and each entry is the whole text it hides.
   */
  lemma MaskExample()
    ensures Mask("134 mg/dL (70-110 mg/dL)") == Masked("__VAL_1__ (__VAL_0__)", ["70-110 mg/dL", "134 mg/dL"])
  {
    RangePassExample("134 mg/dL (70-110 mg/dL)");
    ValuePassExample("134 mg/dL (__VAL_0__)", ["70-110 mg/dL"]);
  }
}
