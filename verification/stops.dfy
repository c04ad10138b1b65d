/**
 * `re.split(r"([.!?])", text)`: the text cut at every '.', '!' and '?', each
 * of those kept as a part of its own between the pieces around it. Both the
 * translator's sentence reflow and the plain speech formatter start from it.
 */
module Stops {
  import opened Text

  predicate IsStop(c: char) {
    c == '.' || c == '!' || c == '?'
  }

  predicate NoStop(s: string) {
    forall k :: 0 <= k < |s| ==> !IsStop(s[k])
  }

  /** A part that is one of the captured separators. */
  predicate IsStopPart(p: string) {
    p == "." || p == "?" || p == "!"
  }

  /** The split of `s`, `seg` being the piece read so far since the last separator. */
  function SplitStopsFrom(s: string, seg: string): seq<string>
    decreases |s|
  {
    if s == [] then [seg]
    else if IsStop(s[0]) then [seg, [s[0]]] + SplitStopsFrom(s[1..], [])
    else SplitStopsFrom(s[1..], seg + [s[0]])
  }

  function SplitStops(s: string): seq<string> {
    SplitStopsFrom(s, [])
  }

  lemma {:induction false} SplitStopsFromPlain(a: string, rest: string, seg: string)
    requires NoStop(a)
    ensures SplitStopsFrom(a + rest, seg) == SplitStopsFrom(rest, seg + a)
    decreases |a|
  {
    if a == [] {
      assert a + rest == rest && seg + a == seg;
    } else {
      assert (a + rest)[0] == a[0] && (a + rest)[1..] == a[1..] + rest;
      assert seg + [a[0]] + a[1..] == seg + a;
      SplitStopsFromPlain(a[1..], rest, seg + [a[0]]);
    }
  }

  /** Text without a separator is one part. */
  lemma SplitStopsNoStop(s: string)
    requires NoStop(s)
    ensures SplitStops(s) == [s]
  {
    SplitStopsFromPlain(s, [], []);
    assert s + [] == s && [] + s == s;
  }

  /** The first separator ends the first piece and is the second part. */
  lemma SplitStopsCons(a: string, c: char, rest: string)
    requires NoStop(a) && IsStop(c)
    ensures SplitStops(a + [c] + rest) == [a, [c]] + SplitStops(rest)
  {
    SplitStopsFromPlain(a, [c] + rest, []);
    assert a + [c] + rest == a + ([c] + rest);
    assert ([c] + rest)[1..] == rest;
    assert [] + a == a;
  }

  /** The parts put back together are the text. */
  lemma {:induction false} SplitStopsFromConcat(s: string, seg: string)
    ensures Concat(SplitStopsFrom(s, seg)) == seg + s
    decreases |s|
  {
    if s == [] {
      ConcatCons(seg, []);
      assert seg + [] == seg + s;
    } else if IsStop(s[0]) {
      SplitStopsFromConcat(s[1..], []);
      StopStep(seg, s[0], s[1..], SplitStopsFrom(s[1..], []));
      assert [s[0]] + s[1..] == s;
    } else {
      SplitStopsFromConcat(s[1..], seg + [s[0]]);
      PlainStep(seg, s);
    }
  }

  lemma ConcatCons(p: string, ps: seq<string>)
    ensures Concat([p] + ps) == p + Concat(ps)
  {
    assert ([p] + ps)[0] == p && ([p] + ps)[1..] == ps;
  }

  lemma StopStep(seg: string, c: char, tail: string, rest: seq<string>)
    requires Concat(rest) == [] + tail
    ensures Concat([seg, [c]] + rest) == seg + ([c] + tail)
  {
    assert [seg, [c]] + rest == [seg] + ([[c]] + rest);
    ConcatCons(seg, [[c]] + rest);
    ConcatCons([c], rest);
    assert [] + tail == tail;
  }

  lemma PlainStep(seg: string, s: string)
    requires s != []
    ensures seg + [s[0]] + s[1..] == seg + s
  {
    assert [s[0]] + s[1..] == s;
  }

  lemma SplitStopsConcat(s: string)
    ensures Concat(SplitStops(s)) == s
  {
    SplitStopsFromConcat(s, []);
  }

  /** Splitting keeps every non-blank character, in order. */
  lemma SplitStopsNonSpace(s: string)
    ensures NonSpaceAll(SplitStops(s)) == NonSpace(s)
  {
    SplitStopsConcat(s);
    NonSpaceConcatAll(SplitStops(s));
  }

  /** Every text is stop-free, or a stop-free piece, a stop and the rest. */
  lemma FirstStop(s: string) returns (a: string, c: char, rest: string)
    requires !NoStop(s)
    ensures NoStop(a) && IsStop(c) && s == a + [c] + rest
  {
    var k :| 0 <= k < |s| && IsStop(s[k]);
    while k > 0 && !NoStop(s[..k])
      invariant 0 <= k < |s| && IsStop(s[k])
      decreases k
    {
      var j :| 0 <= j < k && IsStop(s[..k][j]);
      k := j;
    }
    a, c, rest := s[..k], s[k], s[k + 1..];
    assert s == s[..k] + [s[k]] + s[k + 1..];
  }

  // ---------------------------------------------------------------------------
  // The shape of a list of sentences.

  /** A sentence as the splitters produce it: non-empty and stripped. */
  predicate IsSentence(x: string) {
    x != [] && IsStripped(x)
  }

  predicate AllSentences(xs: seq<string>) {
    forall x | x in xs :: IsSentence(x)
  }

  /** Every sentence but the last ends in '.', '!' or '?'. */
  predicate StopsBetween(xs: seq<string>) {
    forall k | 0 <= k < |xs| - 1 :: xs[k] != [] && IsStop(xs[k][|xs[k]| - 1])
  }

  predicate Shaped(xs: seq<string>) {
    AllSentences(xs) && StopsBetween(xs)
  }

  lemma ConsSentences(seg: string, rest: seq<string>)
    requires IsSentence(seg) && IsStop(seg[|seg| - 1])
    requires AllSentences(rest) && StopsBetween(rest)
    ensures AllSentences([seg] + rest) && StopsBetween([seg] + rest)
  {
    var xs := [seg] + rest;
    forall k | 1 <= k < |xs| ensures xs[k] == rest[k - 1] {
    }
  }
}
