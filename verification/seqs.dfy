/** The array pipeline steps the store uses: `filter`, `findIndex`/`indexOf`, and the
    first-seen de-duplication of a `Set` filled in order. */
module Seqs {

  /** `xs.filter(keep)`. */
  function Filter<T(!new)>(xs: seq<T>, keep: T -> bool): (r: seq<T>)
    ensures |r| <= |xs|
    ensures forall i :: 0 <= i < |r| ==> keep(r[i])
  {
    if xs == [] then []
    else (if keep(xs[0]) then [xs[0]] else []) + Filter(xs[1..], keep)
  }

  /** Filtering keeps every copy of an element that passes the test and no copy of one that fails. */
  lemma {:induction false} FilterCount<T(!new)>(xs: seq<T>, keep: T -> bool, x: T)
    ensures multiset(Filter(xs, keep))[x] == if keep(x) then multiset(xs)[x] else 0
  {
    if xs != [] {
      assert xs == [xs[0]] + xs[1..];
      FilterCount(xs[1..], keep, x);
    }
  }

  /** Filtering keeps an element exactly when it was there and passes the test. */
  lemma FilterMembers<T(!new)>(xs: seq<T>, keep: T -> bool, x: T)
    ensures x in Filter(xs, keep) <==> x in xs && keep(x)
  {
    FilterCount(xs, keep, x);
    assert x in Filter(xs, keep) <==> multiset(Filter(xs, keep))[x] > 0;
    assert x in xs <==> multiset(xs)[x] > 0;
  }

  /** Filtering distributes over concatenation, so it keeps the relative order of survivors. */
  lemma {:induction false} FilterAppend<T(!new)>(xs: seq<T>, ys: seq<T>, keep: T -> bool)
    ensures Filter(xs + ys, keep) == Filter(xs, keep) + Filter(ys, keep)
  {
    if xs != [] {
      var head := if keep(xs[0]) then [xs[0]] else [];
      assert (xs + ys)[0] == xs[0] && (xs + ys)[1..] == xs[1..] + ys;
      assert Filter(xs + ys, keep) == head + Filter(xs[1..] + ys, keep);
      FilterAppend(xs[1..], ys, keep);
      assert Filter(xs, keep) == head + Filter(xs[1..], keep);
    } else {
      assert xs + ys == ys;
    }
  }

  /** A filter every element passes changes nothing. */
  lemma {:induction false} FilterKeepsAll<T(!new)>(xs: seq<T>, keep: T -> bool)
    requires forall i :: 0 <= i < |xs| ==> keep(xs[i])
    ensures Filter(xs, keep) == xs
  {
    if xs != [] {
      FilterKeepsAll(xs[1..], keep);
    }
  }

  /** What a filter keeps, how often, and when it keeps everything. */
  lemma FilterFacts<T(!new)>(xs: seq<T>, keep: T -> bool)
    ensures forall x :: x in Filter(xs, keep) <==> x in xs && keep(x)
    ensures forall x :: multiset(Filter(xs, keep))[x] == if keep(x) then multiset(xs)[x] else 0
    ensures (forall i :: 0 <= i < |xs| ==> keep(xs[i])) ==> Filter(xs, keep) == xs
  {
    forall x
      ensures (x in Filter(xs, keep) <==> x in xs && keep(x)) &&
              multiset(Filter(xs, keep))[x] == if keep(x) then multiset(xs)[x] else 0
    {
      FilterMembers(xs, keep, x);
      FilterCount(xs, keep, x);
    }
    if forall i :: 0 <= i < |xs| ==> keep(xs[i]) {
      FilterKeepsAll(xs, keep);
    }
  }

  /** Filters by predicates that agree everywhere agree. */
  lemma {:induction false} FilterSame<T(!new)>(xs: seq<T>, f: T -> bool, g: T -> bool)
    requires forall x :: f(x) == g(x)
    ensures Filter(xs, f) == Filter(xs, g)
  {
    if xs != [] {
      FilterSame(xs[1..], f, g);
    }
  }

  /** Two filters in a row are one filter by the conjunction. */
  lemma {:induction false} FilterFilter<T(!new)>(xs: seq<T>, f: T -> bool, g: T -> bool, both: T -> bool)
    requires forall x :: both(x) == (f(x) && g(x))
    ensures Filter(Filter(xs, f), g) == Filter(xs, both)
  {
    if xs != [] {
      var head := if f(xs[0]) then [xs[0]] else [];
      FilterAppend(head, Filter(xs[1..], f), g);
      FilterFilter(xs[1..], f, g, both);
    }
  }

  /** `xs.findIndex(p)`: the first index whose element satisfies `p`, or -1. */
  function FindIndex<T>(xs: seq<T>, p: T -> bool): (i: int)
    ensures -1 <= i < |xs|
    ensures i == -1 <==> forall j :: 0 <= j < |xs| ==> !p(xs[j])
    ensures 0 <= i ==> p(xs[i]) && forall j :: 0 <= j < i ==> !p(xs[j])
  {
    if xs == [] then -1
    else if p(xs[0]) then 0
    else
      var k := FindIndex(xs[1..], p);
      if k == -1 then -1 else k + 1
  }

  /** No element appears twice. */
  predicate Distinct<T(==)>(xs: seq<T>)
  {
    forall i, j :: 0 <= i < j < |xs| ==> xs[i] != xs[j]
  }

  /** A sequence has no repeats exactly when nothing occurs in it twice. */
  lemma {:induction false} DistinctCounts<T>(xs: seq<T>)
    ensures Distinct(xs) <==> forall u :: multiset(xs)[u] <= 1
  {
    if xs != [] {
      var h, tl := xs[0], xs[1..];
      DistinctCounts(tl);
      assert xs == [h] + tl;
      assert forall u :: multiset(xs)[u] == multiset(tl)[u] + (if u == h then 1 else 0);
      assert Distinct(xs) <==> h !in tl && Distinct(tl) by {
        if Distinct(xs) {
          forall i, j | 0 <= i < j < |tl|
            ensures tl[i] != tl[j]
          {
            assert tl[i] == xs[i + 1] && tl[j] == xs[j + 1];
          }
        }
        if h !in tl && Distinct(tl) {
          forall i, j | 0 <= i < j < |xs|
            ensures xs[i] != xs[j]
          {
            assert xs[j] == tl[j - 1];
            if i > 0 {
              assert xs[i] == tl[i - 1];
            }
          }
        }
      }
    }
  }

  /** `xs.indexOf(x)` for an element that is present. */
  function FirstIndex<T(==)>(xs: seq<T>, x: T): (i: nat)
    requires x in xs
    ensures i < |xs| && xs[i] == x
    ensures forall j :: 0 <= j < i ==> xs[j] != x
  {
    FindIndex(xs, y => y == x)
  }

  /** The first index in a sequence with a head in front. */
  lemma FirstIndexCons<T>(h: T, xs: seq<T>, x: T)
    requires x in [h] + xs
    ensures x != h ==> x in xs && FirstIndex([h] + xs, x) == 1 + FirstIndex(xs, x)
    ensures x == h ==> FirstIndex([h] + xs, x) == 0
  {
    var i := FirstIndex([h] + xs, x);
    if x != h {
      assert ([h] + xs)[i] == xs[i - 1];
      var k := FirstIndex(xs, x);
      assert ([h] + xs)[k + 1] == x;
    }
  }

  /** Adding `x` to an insertion-ordered set held as a sequence (`Set.prototype.add`). */
  function Add<T(==)>(acc: seq<T>, x: T): seq<T>
  {
    if x in acc then acc else acc + [x]
  }

  /** The elements of `xs` in first-seen order, each once: a `Set` filled from `xs` in order. */
  function Dedup<T(==,!new)>(xs: seq<T>): (r: seq<T>)
    ensures Distinct(r)
    ensures forall x :: x in r <==> x in xs
  {
    if xs == [] then [] else Add(Dedup(xs[..|xs| - 1]), xs[|xs| - 1])
  }

  /** Earlier elements of a de-duplicated sequence first appear earlier in the original. */
  lemma {:induction false} DedupFirstSeenOrder<T(!new)>(xs: seq<T>, i: nat, j: nat)
    requires i < j < |Dedup(xs)|
    ensures FirstIndex(xs, Dedup(xs)[i]) < FirstIndex(xs, Dedup(xs)[j])
  {
    var n := |xs| - 1;
    var front := xs[..n];
    var r := Dedup(front);
    assert xs == front + [xs[n]];
    if xs[n] in r {
      DedupFirstSeenOrder(front, i, j);
      FirstIndexPrefix(front, xs[n], r[i]);
      FirstIndexPrefix(front, xs[n], r[j]);
    } else if j < |r| {
      DedupFirstSeenOrder(front, i, j);
      FirstIndexPrefix(front, xs[n], r[i]);
      FirstIndexPrefix(front, xs[n], r[j]);
    } else {
      FirstIndexPrefix(front, xs[n], r[i]);
      assert FirstIndex(xs, xs[n]) == n;
    }
  }

  /** An element already in `xs` keeps its first index when something is appended. */
  lemma FirstIndexPrefix<T>(xs: seq<T>, y: T, x: T)
    requires x in xs
    ensures FirstIndex(xs + [y], x) == FirstIndex(xs, x)
  {
    var i, k := FirstIndex(xs + [y], x), FirstIndex(xs, x);
    assert (xs + [y])[k] == x;
    assert xs[i] == x || i == |xs|;
  }

  /** Feeding more elements into the set continues the same de-duplication. */
  function AddAll<T(==)>(acc: seq<T>, xs: seq<T>): seq<T>
    decreases |xs|
  {
    if xs == [] then acc else AddAll(Add(acc, xs[0]), xs[1..])
  }

  lemma {:induction false} AddAllDedup<T(!new)>(ys: seq<T>, xs: seq<T>)
    decreases |xs|
    ensures AddAll(Dedup(ys), xs) == Dedup(ys + xs)
  {
    if xs == [] {
      assert ys + xs == ys;
    } else {
      var x := xs[0];
      calc {
        AddAll(Dedup(ys), xs);
        AddAll(Add(Dedup(ys), x), xs[1..]);
        { DedupSnoc(ys, x); }
        AddAll(Dedup(ys + [x]), xs[1..]);
        { AddAllDedup(ys + [x], xs[1..]); }
        Dedup(ys + [x] + xs[1..]);
        { assert ys + [x] + xs[1..] == ys + xs; }
        Dedup(ys + xs);
      }
    }
  }

  /** De-duplicating one more element adds it unless already seen. */
  lemma DedupSnoc<T(!new)>(ys: seq<T>, x: T)
    ensures Dedup(ys + [x]) == Add(Dedup(ys), x)
  {
    assert (ys + [x])[..|ys|] == ys;
  }
}
