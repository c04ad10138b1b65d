/**
 * The greedy packing loop shared by the translation backend's `_chunk_text`
 * and the speech formatter's `chunk_for_tts`: each item is appended to the
 * current chunk followed by a separator, and the chunk is flushed (stripped)
 * first when the item would push it past the limit.
 */
module Packing {
  import opened Text

  /** The chunk text built from a group: each item followed by `sep`. */
  function Terminated(g: seq<string>, sep: char): (r: string)
    ensures g == [] <==> r == []
    decreases |g|
  {
    if g == [] then [] else g[0] + [sep] + Terminated(g[1..], sep)
  }

  /** The loop from the state `current`, over the remaining `items`. */
  function PackFrom(items: seq<string>, sep: char, max: int, current: string): seq<string>
    decreases |items|
  {
    if items == [] then
      if Strip(current) != [] then [Strip(current)] else []
    else
      var item := items[0];
      if |current| + |item| + 1 > max && current != [] then
        [Strip(current)] + PackFrom(items[1..], sep, max, item + [sep])
      else
        PackFrom(items[1..], sep, max, current + item + [sep])
  }

  function Pack(items: seq<string>, sep: char, max: int): seq<string> {
    PackFrom(items, sep, max, [])
  }

  // ---------------------------------------------------------------------------
  // The groups of items the loop puts together.

  /**
   * The items of each chunk, `cur` being the items of the chunk under
   * construction. The last group is listed even when it strips to nothing.
   */
  function Groups(items: seq<string>, sep: char, max: int, cur: seq<string>): (gs: seq<seq<string>>)
    ensures cur != [] ==> gs != []
    decreases |items|
  {
    if items == [] then (if cur == [] then [] else [cur])
    else if |Terminated(cur, sep)| + |items[0]| + 1 > max && cur != [] then
      [cur] + Groups(items[1..], sep, max, [items[0]])
    else
      Groups(items[1..], sep, max, cur + [items[0]])
  }

  function ChunkOf(g: seq<string>, sep: char): string {
    Strip(Terminated(g, sep))
  }

  /** Every group's chunk, in order. */
  function ChunkAll(gs: seq<seq<string>>, sep: char): (cs: seq<string>)
    ensures |cs| == |gs|
    ensures forall k | 0 <= k < |gs| :: cs[k] == ChunkOf(gs[k], sep)
    decreases |gs|
  {
    if gs == [] then []
    else
      var rest := ChunkAll(gs[1..], sep);
      MapStep((g: seq<string>) => ChunkOf(g, sep), gs, rest);
      [ChunkOf(gs[0], sep)] + rest
  }

  /** Mapping `f` over a non-empty list: the head's image in front of the tail's images. */
  lemma MapStep(f: seq<string> -> string, gs: seq<seq<string>>, rest: seq<string>)
    requires gs != [] && |rest| == |gs| - 1
    requires forall k | 0 <= k < |rest| :: rest[k] == f(gs[1..][k])
    ensures forall k | 0 <= k < |gs| :: ([f(gs[0])] + rest)[k] == f(gs[k])
  {
    forall k | 0 < k < |gs| ensures ([f(gs[0])] + rest)[k] == f(gs[k]) {
      assert gs[1..][k - 1] == gs[k];
    }
  }

  /** The list without its last entry when that one is blank. */
  function DropBlankLast(all: seq<string>): (r: seq<string>)
    ensures |r| == |all| || (all != [] && |r| == |all| - 1 && all[|all| - 1] == [])
    ensures forall k | 0 <= k < |r| :: r[k] == all[k]
  {
    if all != [] && all[|all| - 1] == [] then all[..|all| - 1] else all
  }

  /** Every group's chunk, the last one dropped when it is blank. */
  function ChunksOf(gs: seq<seq<string>>, sep: char): (cs: seq<string>)
    ensures |cs| == |gs| || (gs != [] && |cs| == |gs| - 1 && ChunkOf(gs[|gs| - 1], sep) == [])
    ensures forall k | 0 <= k < |cs| :: cs[k] == ChunkOf(gs[k], sep)
  {
    var all := ChunkAll(gs, sep);
    DropBlankLastMap((g: seq<string>) => ChunkOf(g, sep), gs, all);
    DropBlankLast(all)
  }

  /** Dropping a blank last image keeps every other image of `f` in place. */
  lemma DropBlankLastMap(f: seq<string> -> string, gs: seq<seq<string>>, all: seq<string>)
    requires |all| == |gs| && forall k | 0 <= k < |gs| :: all[k] == f(gs[k])
    ensures var r := DropBlankLast(all);
      && (|r| == |gs| || (gs != [] && |r| == |gs| - 1 && f(gs[|gs| - 1]) == []))
      && forall k | 0 <= k < |r| :: r[k] == f(gs[k])
  {
  }

  lemma DropBlankLastCons(x: string, xs: seq<string>)
    requires xs != []
    ensures DropBlankLast([x] + xs) == [x] + DropBlankLast(xs)
  {
    var all := [x] + xs;
    assert all[|all| - 1] == xs[|xs| - 1];
    if xs[|xs| - 1] == [] {
      assert all[..|all| - 1] == [x] + xs[..|xs| - 1];
    }
  }

  /** Away from the end, the chunks are built group by group. */
  lemma ChunksOfCons(gs: seq<seq<string>>, sep: char)
    requires |gs| >= 2
    ensures ChunksOf(gs, sep) == [ChunkOf(gs[0], sep)] + ChunksOf(gs[1..], sep)
  {
    DropBlankLastCons(ChunkOf(gs[0], sep), ChunkAll(gs[1..], sep));
  }

  /** A single group gives its chunk, or nothing when that is blank. */
  lemma ChunksOfOne(g: seq<string>, sep: char)
    ensures ChunksOf([g], sep) == if ChunkOf(g, sep) != [] then [ChunkOf(g, sep)] else []
  {
    assert [g][1..] == [];
  }

  function Flatten(gs: seq<seq<string>>): seq<string>
    decreases |gs|
  {
    if gs == [] then [] else gs[0] + Flatten(gs[1..])
  }

  lemma {:induction false} TerminatedSnoc(g: seq<string>, x: string, sep: char)
    ensures Terminated(g + [x], sep) == Terminated(g, sep) + x + [sep]
    decreases |g|
  {
    if g == [] {
      assert [x][1..] == [];
    } else {
      assert (g + [x])[1..] == g[1..] + [x];
      TerminatedSnoc(g[1..], x, sep);
    }
  }

  lemma TerminatedOne(x: string, sep: char)
    ensures Terminated([x], sep) == x + [sep]
  {
    assert [x][1..] == [];
  }

  /** A group's chunk text is its items joined by the separator, plus a trailing separator. */
  lemma {:induction false} TerminatedJoin(g: seq<string>, sep: char)
    requires g != []
    ensures Terminated(g, sep) == Join([sep], g) + [sep]
    decreases |g|
  {
    if |g| == 1 {
      assert g[1..] == [];
    } else {
      TerminatedJoin(g[1..], sep);
    }
  }

  /** The loop computes the chunks of the groups. */
  lemma {:induction false} PackFromGroups(items: seq<string>, sep: char, max: int, cur: seq<string>)
    ensures PackFrom(items, sep, max, Terminated(cur, sep)) == ChunksOf(Groups(items, sep, max, cur), sep)
    decreases |items|
  {
    if items == [] {
      ChunksOfOne(cur, sep);
    } else {
      var t := Terminated(cur, sep);
      if |t| + |items[0]| + 1 > max && cur != [] {
        PackFromGroups(items[1..], sep, max, [items[0]]);
        PackFromFlush(items, sep, max, cur, Groups(items[1..], sep, max, [items[0]]));
      } else {
        PackFromGroups(items[1..], sep, max, cur + [items[0]]);
        PackFromExtend(items, sep, max, cur);
      }
    }
  }

  /** The flushing step of PackFromGroups: the chunk of `cur` goes in front. */
  lemma PackFromFlush(items: seq<string>, sep: char, max: int, cur: seq<string>, rest: seq<seq<string>>)
    requires items != [] && cur != [] && |Terminated(cur, sep)| + |items[0]| + 1 > max
    requires rest == Groups(items[1..], sep, max, [items[0]])
    requires PackFrom(items[1..], sep, max, Terminated([items[0]], sep)) == ChunksOf(rest, sep)
    ensures PackFrom(items, sep, max, Terminated(cur, sep)) == ChunksOf([cur] + rest, sep)
  {
    TerminatedOne(items[0], sep);
    PackFromFlushes(items, sep, max, Terminated(cur, sep));
    ChunksOfFront(cur, rest, sep);
  }

  /** One flushing iteration of the loop. */
  lemma PackFromFlushes(items: seq<string>, sep: char, max: int, current: string)
    requires items != [] && current != [] && |current| + |items[0]| + 1 > max
    ensures PackFrom(items, sep, max, current) == [Strip(current)] + PackFrom(items[1..], sep, max, items[0] + [sep])
  {
  }

  /** A group in front of a non-empty list of groups puts its chunk in front. */
  lemma ChunksOfFront(g: seq<string>, rest: seq<seq<string>>, sep: char)
    requires rest != []
    ensures ChunksOf([g] + rest, sep) == [ChunkOf(g, sep)] + ChunksOf(rest, sep)
  {
    assert ([g] + rest)[1..] == rest && ([g] + rest)[0] == g;
    ChunksOfCons([g] + rest, sep);
  }

  /** The extending step of PackFromGroups: the next item joins `cur`. */
  lemma PackFromExtend(items: seq<string>, sep: char, max: int, cur: seq<string>)
    requires items != [] && !(|Terminated(cur, sep)| + |items[0]| + 1 > max && cur != [])
    ensures PackFrom(items, sep, max, Terminated(cur, sep))
      == PackFrom(items[1..], sep, max, Terminated(cur + [items[0]], sep))
  {
    TerminatedSnoc(cur, items[0], sep);
  }

  /** The groups hold exactly the items, in order. */
  lemma {:induction false} GroupsFlatten(items: seq<string>, sep: char, max: int, cur: seq<string>)
    ensures Flatten(Groups(items, sep, max, cur)) == cur + items
    decreases |items|
  {
    if items == [] {
      if cur != [] {
        assert Flatten([cur]) == cur + Flatten([]);
      }
    } else if |Terminated(cur, sep)| + |items[0]| + 1 > max && cur != [] {
      var rest := Groups(items[1..], sep, max, [items[0]]);
      GroupsFlatten(items[1..], sep, max, [items[0]]);
      assert ([cur] + rest)[1..] == rest;
      assert [items[0]] + items[1..] == items;
    } else {
      GroupsFlatten(items[1..], sep, max, cur + [items[0]]);
      assert cur + [items[0]] + items[1..] == cur + items;
    }
  }

  /** No group is empty, and a group of two or more items fits within the limit. */
  predicate GroupFits(g: seq<string>, sep: char, max: int) {
    g != [] && (|g| >= 2 ==> |Terminated(g, sep)| <= max)
  }

  predicate AllGroupsFit(gs: seq<seq<string>>, sep: char, max: int) {
    forall k | 0 <= k < |gs| :: GroupFits(gs[k], sep, max)
  }

  lemma {:induction false} GroupsFit(items: seq<string>, sep: char, max: int, cur: seq<string>)
    requires |cur| >= 2 ==> |Terminated(cur, sep)| <= max
    ensures AllGroupsFit(Groups(items, sep, max, cur), sep, max)
    decreases |items|
  {
    if items == [] {
      if cur != [] {
        assert Groups(items, sep, max, cur) == [cur];
      }
    } else if |Terminated(cur, sep)| + |items[0]| + 1 > max && cur != [] {
      TerminatedOne(items[0], sep);
      GroupsFit(items[1..], sep, max, [items[0]]);
      var rest := Groups(items[1..], sep, max, [items[0]]);
      var gs := [cur] + rest;
      assert GroupFits(cur, sep, max);
      forall k | 0 <= k < |gs| ensures GroupFits(gs[k], sep, max) {
        if k > 0 {
          assert gs[k] == rest[k - 1];
        }
      }
    } else {
      TerminatedSnoc(cur, items[0], sep);
      GroupsFit(items[1..], sep, max, cur + [items[0]]);
    }
  }

  /** Every group but the last is full: its next item would have pushed the chunk past the limit. */
  predicate GroupsFull(gs: seq<seq<string>>, sep: char, max: int) {
    forall i | 0 <= i < |gs| - 1 :: FullAt(gs, i, sep, max)
  }

  /** Group `i` is full: the first item of group `i + 1` would not have fitted into it. */
  predicate FullAt(gs: seq<seq<string>>, i: int, sep: char, max: int)
    requires 0 <= i < |gs| - 1
  {
    gs[i + 1] != [] && |Terminated(gs[i], sep)| + |gs[i + 1][0]| + 1 > max
  }

  /** A full chunk in front of full groups whose first item would not have fitted into it. */
  lemma GroupsFullCons(cur: seq<string>, rest: seq<seq<string>>, sep: char, max: int)
    requires GroupsFull(rest, sep, max)
    requires rest != [] && rest[0] != [] && |Terminated(cur, sep)| + |rest[0][0]| + 1 > max
    ensures GroupsFull([cur] + rest, sep, max)
  {
    var gs := [cur] + rest;
    forall i | 0 <= i < |gs| - 1 ensures FullAt(gs, i, sep, max) {
      if i == 0 {
        assert gs[0] == cur && gs[1] == rest[0];
      } else {
        assert FullAt(rest, i - 1, sep, max);
        assert gs[i] == rest[i - 1] && gs[i + 1] == rest[i];
      }
    }
  }

  /** The loop flushes a chunk only when the next item does not fit, so every group but the last is full. */
  lemma {:induction false} GroupsMaximal(items: seq<string>, sep: char, max: int, cur: seq<string>)
    ensures var gs := Groups(items, sep, max, cur);
      && GroupsFull(gs, sep, max)
      && (gs != [] ==> gs[0] != [] && gs[0][0] == (cur + items)[0])
    decreases |items|
  {
    if items == [] {
      assert cur + items == cur;
    } else if |Terminated(cur, sep)| + |items[0]| + 1 > max && cur != [] {
      GroupsMaximal(items[1..], sep, max, [items[0]]);
      var rest := Groups(items[1..], sep, max, [items[0]]);
      assert ([items[0]] + items[1..])[0] == items[0];
      GroupsFullCons(cur, rest, sep, max);
      assert ([cur] + rest)[0] == cur && (cur + items)[0] == cur[0];
    } else {
      GroupsMaximal(items[1..], sep, max, cur + [items[0]]);
      assert cur + [items[0]] + items[1..] == cur + items;
    }
  }

  lemma {:induction false} TerminatedAppend(a: seq<string>, b: seq<string>, sep: char)
    ensures Terminated(a + b, sep) == Terminated(a, sep) + Terminated(b, sep)
    decreases |a|
  {
    if a == [] {
      assert a + b == b;
    } else {
      assert (a + b)[1..] == a[1..] + b;
      TerminatedAppend(a[1..], b, sep);
    }
  }

  /** A group that starts with `cur` and then `x` has a chunk text at least that of `cur` plus `x`. */
  lemma {:induction false} TerminatedExtends(g: seq<string>, cur: seq<string>, x: string, sep: char)
    requires |cur| < |g| && g[..|cur| + 1] == cur + [x]
    ensures |Terminated(cur, sep)| + |x| + 1 <= |Terminated(g, sep)|
  {
    assert g == g[..|cur| + 1] + g[|cur| + 1..];
    TerminatedAppend(g[..|cur| + 1], g[|cur| + 1..], sep);
    TerminatedSnoc(cur, x, sep);
  }

  /** Dropping the first group keeps the rest fitting and full. */
  lemma {:induction false} GroupsTail(gs: seq<seq<string>>, sep: char, max: int)
    requires gs != [] && AllGroupsFit(gs, sep, max) && GroupsFull(gs, sep, max)
    ensures AllGroupsFit(gs[1..], sep, max) && GroupsFull(gs[1..], sep, max)
    ensures Flatten(gs) == gs[0] + Flatten(gs[1..]) && gs[0] != []
  {
    assert GroupFits(gs[0], sep, max);
    forall k | 0 <= k < |gs[1..]| ensures GroupFits(gs[1..][k], sep, max) {
      assert gs[1..][k] == gs[k + 1];
      assert GroupFits(gs[k + 1], sep, max);
    }
    forall i | 0 <= i < |gs[1..]| - 1 ensures FullAt(gs[1..], i, sep, max) {
      assert FullAt(gs, i + 1, sep, max);
      assert gs[1..][i] == gs[i + 1] && gs[1..][i + 1] == gs[i + 2];
    }
  }

  /**
   * Any split of `cur + items` into groups that fit and are full, whose
   * first group starts with `cur`, is the one the loop builds from `cur`.
   */
  lemma {:induction false} GroupsUniqueFrom(items: seq<string>, sep: char, max: int, cur: seq<string>, gs: seq<seq<string>>)
    requires Flatten(gs) == cur + items && AllGroupsFit(gs, sep, max) && GroupsFull(gs, sep, max)
    requires cur != [] ==> gs != [] && |cur| <= |gs[0]| && gs[0][..|cur|] == cur
    ensures gs == Groups(items, sep, max, cur)
    decreases |items|
  {
    if gs == [] {
      assert cur + items == [];
    } else if items == [] {
      GroupsTail(gs, sep, max);
      var g, rest := gs[0], gs[1..];
      assert g + Flatten(rest) == cur + items;
      assert |g| <= |cur| && g == cur;
      assert Flatten(rest) == [];
      if rest != [] {
        GroupsTail(rest, sep, max);
      }
    } else if |Terminated(cur, sep)| + |items[0]| + 1 > max && cur != [] {
      UniqueFlush(items, sep, max, cur, gs);
      GroupsUniqueFrom(items[1..], sep, max, [items[0]], gs[1..]);
      assert gs == [cur] + gs[1..];
    } else {
      GroupsTail(gs, sep, max);
      if |gs| >= 2 {
        assert FullAt(gs, 0, sep, max);
      }
      UniqueExtend(items, sep, max, cur, gs);
      GroupsUniqueFrom(items[1..], sep, max, cur + [items[0]], gs);
    }
  }

  /** When the next item does not fit, a full first group holds exactly `cur`, and the rest starts with the item. */
  lemma UniqueFlush(items: seq<string>, sep: char, max: int, cur: seq<string>, gs: seq<seq<string>>)
    requires Flatten(gs) == cur + items && AllGroupsFit(gs, sep, max) && GroupsFull(gs, sep, max)
    requires gs != [] && |cur| <= |gs[0]| && gs[0][..|cur|] == cur
    requires items != [] && cur != [] && |Terminated(cur, sep)| + |items[0]| + 1 > max
    ensures gs[0] == cur
    ensures var rest := gs[1..];
      && Flatten(rest) == [items[0]] + items[1..] && AllGroupsFit(rest, sep, max) && GroupsFull(rest, sep, max)
      && rest != [] && 1 <= |rest[0]| && rest[0][..1] == [items[0]]
  {
    GroupsTail(gs, sep, max);
    assert GroupFits(gs[0], sep, max);
    FirstGroupIsCur(items, sep, max, cur, gs);
    var g, rest, x := gs[0], gs[1..], items[0];
    assert Flatten(rest) == (g + Flatten(rest))[|g|..] == (cur + items)[|cur|..] == items;
    assert items == [x] + items[1..];
    GroupsTail(rest, sep, max);
    assert rest[0][0] == (rest[0] + Flatten(rest[1..]))[0] == x;
  }

  /** A first group that went past `cur` would hold `cur` and the next item, which do not fit together. */
  lemma FirstGroupIsCur(items: seq<string>, sep: char, max: int, cur: seq<string>, gs: seq<seq<string>>)
    requires gs != [] && Flatten(gs) == cur + items && GroupFits(gs[0], sep, max)
    requires |cur| <= |gs[0]| && gs[0][..|cur|] == cur
    requires items != [] && cur != [] && |Terminated(cur, sep)| + |items[0]| + 1 > max
    ensures gs[0] == cur
  {
    var g := gs[0];
    if |g| > |cur| {
      PrefixNext(g, Flatten(gs[1..]), cur, items);
      TerminatedExtends(g, cur, items[0], sep);
      assert false;
    }
    assert g == g[..|cur|];
  }

  /** A group that runs past `cur` in `cur + items` continues with the first item. */
  lemma PrefixNext(g: seq<string>, rest: seq<string>, cur: seq<string>, items: seq<string>)
    requires g + rest == cur + items && items != [] && |cur| < |g| && g[..|cur|] == cur
    ensures g[..|cur| + 1] == cur + [items[0]]
  {
    assert g[|cur|] == (g + rest)[|cur|] == items[0];
    assert g[..|cur| + 1] == g[..|cur|] + [g[|cur|]];
  }

  /** When the next item fits, the first group holds `cur` and that item too. */
  lemma UniqueExtend(items: seq<string>, sep: char, max: int, cur: seq<string>, gs: seq<seq<string>>)
    requires gs != [] && gs[0] != [] && Flatten(gs) == cur + items && (|gs| >= 2 ==> FullAt(gs, 0, sep, max))
    requires |cur| <= |gs[0]| && gs[0][..|cur|] == cur
    requires items != [] && !(|Terminated(cur, sep)| + |items[0]| + 1 > max && cur != [])
    ensures Flatten(gs) == cur + [items[0]] + items[1..]
    ensures |cur + [items[0]]| <= |gs[0]| && gs[0][..|cur| + 1] == cur + [items[0]]
  {
    FirstGroupLonger(items, sep, max, cur, gs);
    PrefixNext(gs[0], Flatten(gs[1..]), cur, items);
    assert cur + [items[0]] + items[1..] == cur + items;
  }

  /** When the next item fits, a full first group cannot stop at `cur`. */
  lemma FirstGroupLonger(items: seq<string>, sep: char, max: int, cur: seq<string>, gs: seq<seq<string>>)
    requires gs != [] && gs[0] != [] && Flatten(gs) == cur + items && (|gs| >= 2 ==> FullAt(gs, 0, sep, max))
    requires |cur| <= |gs[0]| && gs[0][..|cur|] == cur
    requires items != [] && !(|Terminated(cur, sep)| + |items[0]| + 1 > max && cur != [])
    ensures |gs[0]| > |cur|
  {
    var g, rest := gs[0], gs[1..];
    assert g + Flatten(rest) == cur + items;
    assert Flatten(rest) == (g + Flatten(rest))[|g|..] == (cur + items)[|g|..];
    if rest != [] {
      assert rest[0] == gs[1] != [];
      assert rest[0][0] == (rest[0] + Flatten(rest[1..]))[0] == (cur + items)[|g|];
    }
    if |g| <= |cur| {
      assert false;
    }
  }

  /** The greedy split is the only split of the items into groups that fit and are full. */
  lemma GroupsUnique(items: seq<string>, sep: char, max: int, gs: seq<seq<string>>)
    requires Flatten(gs) == items && AllGroupsFit(gs, sep, max) && GroupsFull(gs, sep, max)
    ensures gs == Groups(items, sep, max, [])
  {
    assert [] + items == items;
    GroupsUniqueFrom(items, sep, max, [], gs);
  }

  lemma StripShrinks(s: string)
    ensures |Strip(s)| <= |s|
  {
    StripIsSlice(s);
  }

  /**
   * `chunk_for_tts` and `_chunk_text`'s packing: the chunks are those of a
   * split of the items into non-empty consecutive groups, in order, every
   * group but the last full; a chunk longer than the limit holds a single
   * item; only the last group may be dropped, and only when it strips to nothing.
   */
  lemma PackShape(items: seq<string>, sep: char, max: int)
    ensures var gs := Groups(items, sep, max, []); var cs := Pack(items, sep, max);
      && Flatten(gs) == items
      && cs == ChunksOf(gs, sep)
      && AllGroupsFit(gs, sep, max)
      && GroupsFull(gs, sep, max)
      && (forall k | 0 <= k < |cs| :: cs[k] == ChunkOf(gs[k], sep))
      && (forall k | 0 <= k < |cs| && |cs[k]| > max :: |gs[k]| == 1)
  {
    var gs := Groups(items, sep, max, []);
    GroupsMaximal(items, sep, max, []);
    PackFromGroups(items, sep, max, []);
    GroupsFlatten(items, sep, max, []);
    assert [] + items == items;
    GroupsFit(items, sep, max, []);
    var cs := Pack(items, sep, max);
    forall k | 0 <= k < |cs| && |cs[k]| > max ensures |gs[k]| == 1 {
      LongChunkSingle(gs[k], sep, max);
    }
  }

  /** A chunk longer than the limit can only come from a single item. */
  lemma LongChunkSingle(g: seq<string>, sep: char, max: int)
    requires GroupFits(g, sep, max) && |ChunkOf(g, sep)| > max
    ensures |g| == 1
  {
    StripShrinks(Terminated(g, sep));
  }

  /** Nothing to pack but blanks gives no chunk. */
  lemma PackBlank(sep: char, max: int)
    requires IsSpace(sep)
    ensures Pack([[]], sep, max) == []
  {
    assert Strip([sep]) == [] by {
      assert LStrip([sep]) == LStrip([sep][1..]);
    }
  }

  // ---------------------------------------------------------------------------
  // Nothing but whitespace is lost.

  lemma {:induction false} TerminatedNonSpace(g: seq<string>, sep: char)
    requires IsSpace(sep)
    ensures NonSpace(Terminated(g, sep)) == NonSpaceAll(g)
    decreases |g|
  {
    if g != [] {
      TerminatedNonSpace(g[1..], sep);
      TerminatedStep(g[0], sep, Terminated(g[1..], sep));
    }
  }

  lemma TerminatedStep(x: string, sep: char, rest: string)
    requires IsSpace(sep)
    ensures NonSpace(x + [sep] + rest) == NonSpace(x) + NonSpace(rest)
  {
    NonSpaceConcat(x + [sep], rest);
    NonSpaceConcat(x, [sep]);
    NonSpaceOfBlank([sep]);
    assert NonSpace(x) + [] == NonSpace(x);
  }

  lemma {:induction false} ChunkOfNonSpace(g: seq<string>, sep: char)
    requires IsSpace(sep)
    ensures NonSpace(ChunkOf(g, sep)) == NonSpaceAll(g)
  {
    StripKeepsNonSpace(Terminated(g, sep));
    TerminatedNonSpace(g, sep);
  }

  lemma {:induction false} ChunksNonSpace(gs: seq<seq<string>>, sep: char)
    requires IsSpace(sep)
    ensures NonSpaceAll(ChunksOf(gs, sep)) == NonSpaceAll(Flatten(gs))
    decreases |gs|
  {
    if gs != [] {
      ChunkOfNonSpace(gs[0], sep);
      NonSpaceAllAppend(gs[0], Flatten(gs[1..]));
      if |gs| == 1 {
        assert Flatten(gs[1..]) == [];
        ChunksOfOne(gs[0], sep);
        assert gs == [gs[0]];
        if ChunkOf(gs[0], sep) != [] {
          assert NonSpaceAll([ChunkOf(gs[0], sep)]) == NonSpace(ChunkOf(gs[0], sep)) + NonSpaceAll([]);
        } else {
          assert NonSpace(ChunkOf(gs[0], sep)) == [];
        }
      } else {
        ChunksNonSpace(gs[1..], sep);
        ChunksOfCons(gs, sep);
        NonSpaceAllAppend([ChunkOf(gs[0], sep)], ChunksOf(gs[1..], sep));
        assert NonSpaceAll([ChunkOf(gs[0], sep)]) == NonSpace(ChunkOf(gs[0], sep)) + NonSpaceAll([]);
      }
    }
  }

  /** With a blank separator, the chunks hold every non-blank character of the items, in order. */
  lemma PackKeepsNonSpace(items: seq<string>, sep: char, max: int)
    requires IsSpace(sep)
    ensures NonSpaceAll(Pack(items, sep, max)) == NonSpaceAll(items)
  {
    PackShape(items, sep, max);
    ChunksNonSpace(Groups(items, sep, max, []), sep);
  }

  // ---------------------------------------------------------------------------
  // `chunk_for_tts`, shared by both speech formatters.

  /** `TTSConfig.max_chars_per_chunk` */
  const MaxSpeechChunk: int := 220

  /** The packing of the formatted text's lines, each followed by a line break. */
  function ChunkLines(formatted: string, max: int): seq<string> {
    Pack(Split(formatted, '\n'), '\n', max)
  }

  /**
   * The lines of the formatted text are split into consecutive groups, in
   * order, each line in exactly one, every group but the last full; every
   * chunk is its group's text, stripped; a chunk longer than `max` holds a single line.
   */
  lemma ChunkLinesShape(formatted: string, max: int)
    ensures var lines := Split(formatted, '\n'); var gs := Groups(lines, '\n', max, []);
      var cs := ChunkLines(formatted, max);
      && Join("\n", lines) == formatted
      && Flatten(gs) == lines
      && cs == ChunksOf(gs, '\n')
      && AllGroupsFit(gs, '\n', max)
      && GroupsFull(gs, '\n', max)
      && (forall k | 0 <= k < |cs| :: cs[k] == ChunkOf(gs[k], '\n'))
      && (forall k | 0 <= k < |cs| && |cs[k]| > max :: |gs[k]| == 1)
  {
    PackShape(Split(formatted, '\n'), '\n', max);
  }

  /** Empty text gives no chunk at all. */
  lemma ChunkLinesEmpty(max: int)
    ensures ChunkLines([], max) == []
  {
    assert Split([], '\n') == [[]];
    PackBlank('\n', max);
  }

  /** Chunking the lines loses only whitespace. */
  lemma ChunkLinesKeepsNonSpace(formatted: string, max: int)
    ensures NonSpaceAll(ChunkLines(formatted, max)) == NonSpace(formatted)
  {
    var lines := Split(formatted, '\n');
    PackKeepsNonSpace(lines, '\n', max);
    NonSpaceJoin("\n", lines);
  }
}
