/**
 * Order-preserving deduplication ("keep the first occurrence of each element"),
 * the specification shared by slide-line deduplication and by the insertion
 * order of the glossary's phrase map.
 */
module Seqs {

  ghost predicate NoDuplicates<T>(xs: seq<T>)
  {
    forall i, j :: 0 <= i < j < |xs| ==> xs[i] != xs[j]
  }

  /** `a` can be obtained from `b` by deleting elements (greedy match from the end). */
  ghost predicate IsSubsequence<T>(a: seq<T>, b: seq<T>)
    decreases |b|
  {
    if a == [] then true
    else if b == [] then false
    else if a[|a| - 1] == b[|b| - 1] then IsSubsequence(a[..|a| - 1], b[..|b| - 1])
    else IsSubsequence(a, b[..|b| - 1])
  }

  /** The position of the first occurrence of `x` in `xs`. */
  function FirstIndex<T(==)>(xs: seq<T>, x: T): (k: nat)
    requires x in xs
    ensures k < |xs| && xs[k] == x && x !in xs[..k]
    decreases |xs|
  {
    if xs[0] == x then 0 else 1 + FirstIndex(xs[1..], x)
  }

  /**
   * The elements of `xs` with every repeat of an earlier element dropped, in
   * order: the last element is kept exactly when it did not occur before it.
   */
  function Dedupe<T(==,!new)>(xs: seq<T>): (r: seq<T>)
    ensures forall x :: x in r <==> x in xs
    ensures NoDuplicates(r)
    ensures |r| <= |xs|
    decreases |xs|
  {
    if xs == [] then []
    else
      var init := xs[..|xs| - 1];
      var d := Dedupe(init);
      if xs[|xs| - 1] in init then d else d + [xs[|xs| - 1]]
  }

  /** Appending an element not yet present keeps the elements distinct. */
  lemma AppendFreshNoDuplicates<T>(xs: seq<T>, x: T)
    requires NoDuplicates(xs) && x !in xs
    ensures NoDuplicates(xs + [x])
  {
    var ys := xs + [x];
    forall i, j | 0 <= i < j < |ys| ensures ys[i] != ys[j] {
      assert ys[i] == xs[i];
      if j < |xs| {
        assert ys[j] == xs[j];
      }
    }
  }

  lemma {:induction false} FirstIndexUnique<T>(xs: seq<T>, x: T, k: nat)
    requires k < |xs| && xs[k] == x && x !in xs[..k]
    ensures FirstIndex(xs, x) == k
  {
  }

  /** Appending an element to the longer sequence keeps a subsequence a subsequence. */
  lemma {:induction false} SubsequenceExtend<T>(a: seq<T>, b: seq<T>, x: T)
    requires IsSubsequence(a, b)
    ensures IsSubsequence(a, b + [x])
    decreases |b|, 1
  {
    if a != [] {
      assert (b + [x])[..|b|] == b;
      if a[|a| - 1] == x {
        SubsequenceDropLast(a, b);
      }
    }
  }

  /** Dropping the last element of a subsequence keeps it a subsequence. */
  lemma {:induction false} SubsequenceDropLast<T>(a: seq<T>, b: seq<T>)
    requires a != [] && IsSubsequence(a, b)
    ensures IsSubsequence(a[..|a| - 1], b)
    decreases |b|, 0
  {
    var a' := a[..|a| - 1];
    if a[|a| - 1] == b[|b| - 1] {
      SubsequenceExtend(a', b[..|b| - 1], b[|b| - 1]);
      assert b[..|b| - 1] + [b[|b| - 1]] == b;
    } else {
      SubsequenceDropLast(a, b[..|b| - 1]);
      if a' != [] {
        SubsequenceExtend(a', b[..|b| - 1], b[|b| - 1]);
        assert b[..|b| - 1] + [b[|b| - 1]] == b;
      }
    }
  }

  /** The deduplicated sequence is obtained from the input by deleting elements. */
  lemma {:induction false} DedupeIsSubsequence<T(!new)>(xs: seq<T>)
    ensures IsSubsequence(Dedupe(xs), xs)
    decreases |xs|
  {
    if xs != [] {
      var init := xs[..|xs| - 1];
      var x := xs[|xs| - 1];
      DedupeIsSubsequence(init);
      assert init + [x] == xs;
      if x in init {
        SubsequenceExtend(Dedupe(init), init, x);
      } else {
        var r := Dedupe(init) + [x];
        assert r[..|r| - 1] == Dedupe(init);
      }
    }
  }

  /** The kept elements appear in the order of their first occurrences in the input. */
  lemma {:induction false} DedupeKeepsFirstOccurrenceOrder<T(!new)>(xs: seq<T>)
    ensures forall i, j :: 0 <= i < j < |Dedupe(xs)| ==>
              FirstIndex(xs, Dedupe(xs)[i]) < FirstIndex(xs, Dedupe(xs)[j])
    decreases |xs|
  {
    if xs != [] {
      var init := xs[..|xs| - 1];
      var x := xs[|xs| - 1];
      var d := Dedupe(init);
      DedupeKeepsFirstOccurrenceOrder(init);
      forall y | y in init
        ensures FirstIndex(xs, y) == FirstIndex(init, y)
      {
        var k := FirstIndex(init, y);
        assert xs[..k] == init[..k];
        FirstIndexUnique(xs, y, k);
      }
      if x !in init {
        assert xs[..|xs| - 1] == init;
        FirstIndexUnique(xs, x, |xs| - 1);
        var r := d + [x];
        assert r == Dedupe(xs);
        assert forall k :: 0 <= k < |r| ==> r[k] in xs;
        forall i, j | 0 <= i < j < |r|
          ensures FirstIndex(xs, r[i]) < FirstIndex(xs, r[j])
        {
          assert r[i] == d[i] && r[i] in init;
          if j < |d| {
            assert r[j] == d[j] && r[j] in init;
          }
        }
      }
    }
  }

  /** A sequence without duplicates is its own deduplication. */
  lemma {:induction false} DedupeOfDistinct<T(!new)>(xs: seq<T>)
    requires NoDuplicates(xs)
    ensures Dedupe(xs) == xs
    decreases |xs|
  {
    if xs != [] {
      var init := xs[..|xs| - 1];
      DedupeOfDistinct(init);
      assert xs[|xs| - 1] !in init;
      assert init + [xs[|xs| - 1]] == xs;
    }
  }

  /** Deduplicating twice is the same as deduplicating once. */
  lemma DedupeIdempotent<T(!new)>(xs: seq<T>)
    ensures Dedupe(Dedupe(xs)) == Dedupe(xs)
  {
    DedupeOfDistinct(Dedupe(xs));
  }
}
