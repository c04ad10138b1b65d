/**
 * Order-preserving de-duplication, the "seen set" idiom the pipeline uses
 * for phone numbers and for grouping evaluations by category.
 */
module Seqs {

  predicate NoDuplicates<T(==,!new)>(xs: seq<T>) {
    forall i, j :: 0 <= i < j < |xs| ==> xs[i] != xs[j]
  }

  /** Index of the first occurrence of `x` in `xs`. */
  function FirstIndex<T(==,!new)>(xs: seq<T>, x: T): (i: nat)
    requires x in xs
    ensures i < |xs| && xs[i] == x
    ensures forall k :: 0 <= k < i ==> xs[k] != x
  {
    if xs[0] == x then 0 else 1 + FirstIndex(xs[1..], x)
  }

  /** The elements of `xs` not in `seen`, each kept at its first occurrence. */
  function DedupFrom<T(==,!new)>(xs: seq<T>, seen: set<T>): (r: seq<T>)
    ensures forall x :: x in r <==> x in xs && x !in seen
    ensures NoDuplicates(r)
    decreases |xs|
  {
    if xs == [] then []
    else if xs[0] in seen then DedupFrom(xs[1..], seen)
    else [xs[0]] + DedupFrom(xs[1..], seen + {xs[0]})
  }

  /** `xs` with later repeats removed: the first occurrences, in order. */
  function Dedup<T(==,!new)>(xs: seq<T>): (r: seq<T>)
    ensures forall x :: x in r <==> x in xs
    ensures NoDuplicates(r)
  {
    DedupFrom(xs, {})
  }

  /** Elements of `xs` that are not in `seen` appear in `DedupFrom` in the order of their first occurrence. */
  lemma {:induction false} DedupFromOrder<T(!new)>(xs: seq<T>, seen: set<T>)
    ensures forall i, j :: 0 <= i < j < |DedupFrom(xs, seen)| ==>
      FirstIndex(xs, DedupFrom(xs, seen)[i]) < FirstIndex(xs, DedupFrom(xs, seen)[j])
    decreases |xs|
  {
    if xs == [] {
    } else if xs[0] in seen {
      var r := DedupFrom(xs[1..], seen);
      DedupFromOrder(xs[1..], seen);
      forall x | x in r
        ensures FirstIndex(xs, x) == 1 + FirstIndex(xs[1..], x)
      {
        assert x != xs[0];
      }
    } else {
      var r := DedupFrom(xs[1..], seen + {xs[0]});
      DedupFromOrder(xs[1..], seen + {xs[0]});
      forall x | x in r
        ensures FirstIndex(xs, x) == 1 + FirstIndex(xs[1..], x)
      {
        assert x != xs[0];
      }
      assert DedupFrom(xs, seen) == [xs[0]] + r;
    }
  }

  /** `Dedup` keeps the order of first occurrence. */
  lemma DedupOrder<T(!new)>(xs: seq<T>)
    ensures forall i, j :: 0 <= i < j < |Dedup(xs)| ==>
      FirstIndex(xs, Dedup(xs)[i]) < FirstIndex(xs, Dedup(xs)[j])
  {
    DedupFromOrder(xs, {});
  }

  lemma DedupFromCons<T(!new)>(y: T, ys: seq<T>, seen: set<T>)
    ensures DedupFrom([y] + ys, seen) ==
      if y in seen then DedupFrom(ys, seen) else [y] + DedupFrom(ys, seen + {y})
  {
    assert ([y] + ys)[0] == y && ([y] + ys)[1..] == ys;
  }

  /** Appending one item to the input appends it to the output exactly when it is new. */
  lemma {:induction false} DedupFromSnoc<T(!new)>(xs: seq<T>, x: T, seen: set<T>)
    ensures DedupFrom(xs + [x], seen) ==
      DedupFrom(xs, seen) + (if x in seen || x in xs then [] else [x])
    decreases |xs|
  {
    if xs == [] {
      assert xs + [x] == [x] + [];
      DedupFromCons(x, [], seen);
    } else {
      var y, ys := xs[0], xs[1..];
      assert xs == [y] + ys;
      assert xs + [x] == [y] + (ys + [x]);
      assert x in xs <==> x == y || x in ys;
      DedupFromCons(y, ys + [x], seen);
      DedupFromCons(y, ys, seen);
      var tail: seq<T> := if x in seen || x in xs then [] else [x];
      if y in seen {
        DedupFromSnoc(ys, x, seen);
      } else {
        DedupFromSnoc(ys, x, seen + {y});
        var r := DedupFrom(ys, seen + {y});
        assert (if x in seen + {y} || x in ys then [] else [x]) == tail;
        assert [y] + (r + tail) == ([y] + r) + tail;
      }
    }
  }

  /**
   * The loop the source writes out: walk the items, remember what has been
   * seen, append what is new.
   */
  method KeepFirstOccurrences<T(==,!new)>(xs: seq<T>) returns (r: seq<T>)
    ensures r == Dedup(xs)
    ensures forall x :: x in r <==> x in xs
    ensures NoDuplicates(r)
  {
    var seen: set<T> := {};
    r := [];
    var i := 0;
    while i < |xs|
      invariant 0 <= i <= |xs|
      invariant r == Dedup(xs[..i])
      invariant forall x :: x in seen <==> x in xs[..i]
    {
      DedupFromSnoc(xs[..i], xs[i], {});
      assert xs[..i + 1] == xs[..i] + [xs[i]];
      if xs[i] !in seen {
        seen := seen + {xs[i]};
        r := r + [xs[i]];
      }
      i := i + 1;
    }
    assert xs[..i] == xs;
  }
}
