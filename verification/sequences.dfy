/** Order-preserving selection from a sequence, the shape of every "keep the ones that
    match" loop in the lint. */
module Sequences {

  /** Some element of `xs` satisfies `p`. */
  predicate Any<T>(xs: seq<T>, p: T -> bool) {
    exists i :: 0 <= i < |xs| && p(xs[i])
  }

  /** Growing a prefix by one element adds exactly that element's verdict. */
  lemma AnyPrefixStep<T>(xs: seq<T>, g: nat, p: T -> bool)
    requires g < |xs|
    ensures Any(xs[..g + 1], p) <==> Any(xs[..g], p) || p(xs[g])
  {
    assert forall h :: 0 <= h < g ==> xs[..g + 1][h] == xs[..g][h];
    assert xs[..g + 1][g] == xs[g];
  }

  /** The elements of `xs` that satisfy `keep`, in their original order. */
  function Filter<T>(xs: seq<T>, keep: T -> bool): (r: seq<T>)
    ensures |r| <= |xs|
    decreases |xs|
  {
    if xs == [] then []
    else
      var init := Filter(xs[..|xs| - 1], keep);
      var x := xs[|xs| - 1];
      if keep(x) then init + [x] else init
  }

  /** Everything the filter returns is kept, and it returns nothing exactly when no
      element is kept. */
  lemma {:induction false} FilterKeeps<T>(xs: seq<T>, keep: T -> bool)
    ensures forall k :: 0 <= k < |Filter(xs, keep)| ==> keep(Filter(xs, keep)[k])
    ensures Filter(xs, keep) == [] <==> forall i :: 0 <= i < |xs| ==> !keep(xs[i])
    decreases |xs|
  {
    if xs != [] {
      FilterKeeps(xs[..|xs| - 1], keep);
      assert forall i :: 0 <= i < |xs| - 1 ==> xs[..|xs| - 1][i] == xs[i];
    }
  }

  /** Filtering a prefix one element longer adds that element exactly when it is kept. */
  lemma FilterSnoc<T>(xs: seq<T>, i: nat, keep: T -> bool)
    requires i < |xs|
    ensures Filter(xs[..i + 1], keep) == Filter(xs[..i], keep) + (if keep(xs[i]) then [xs[i]] else [])
  {
    assert xs[..i + 1][..i] == xs[..i];
  }

  /** Counting the kept elements of a prefix one element longer adds one exactly when
      that element is kept (`hit` is its verdict, however it was obtained). */
  lemma FilterCountSnoc<T>(xs: seq<T>, i: nat, keep: T -> bool, hit: bool)
    requires i < |xs| && hit == keep(xs[i])
    ensures |Filter(xs[..i + 1], keep)| == |Filter(xs[..i], keep)| + (if hit then 1 else 0)
  {
    FilterSnoc(xs, i, keep);
  }

  /** `idx` lists, in strictly increasing order, exactly the positions of `xs` whose
      element satisfies `keep`. */
  ghost predicate KeptPositions<T>(idx: seq<nat>, xs: seq<T>, keep: T -> bool) {
    && (forall k :: 0 <= k < |idx| ==> idx[k] < |xs|)
    && (forall k, l :: 0 <= k < l < |idx| ==> idx[k] < idx[l])
    && (forall i :: 0 <= i < |xs| ==> (i in idx <==> keep(xs[i])))
  }

  /** `r` holds the elements of `xs` at positions `idx`, in that order. */
  ghost predicate Picks<T>(r: seq<T>, xs: seq<T>, idx: seq<nat>) {
    && |r| == |idx|
    && (forall k :: 0 <= k < |idx| ==> idx[k] < |xs| && r[k] == xs[idx[k]])
  }

  /** Appending an element that is kept extends the positions by its own. */
  lemma KeptPositionsGrow<T>(idx: seq<nat>, r: seq<T>, xs: seq<T>, x: T, keep: T -> bool)
    requires KeptPositions(idx, xs, keep) && Picks(r, xs, idx) && keep(x)
    ensures KeptPositions(idx + [|xs|], xs + [x], keep)
    ensures Picks(r + [x], xs + [x], idx + [|xs|])
  {
    var ys := xs + [x];
    var idx' := idx + [|xs|];
    forall i | 0 <= i < |ys| ensures (i in idx' <==> keep(ys[i])) {
      assert i in idx' <==> i in idx || i == |xs|;
    }
  }

  /** Appending an element that is not kept leaves the positions as they are. */
  lemma KeptPositionsStay<T>(idx: seq<nat>, r: seq<T>, xs: seq<T>, x: T, keep: T -> bool)
    requires KeptPositions(idx, xs, keep) && Picks(r, xs, idx) && !keep(x)
    ensures KeptPositions(idx, xs + [x], keep)
    ensures Picks(r, xs + [x], idx)
  {
    var ys := xs + [x];
    forall i | 0 <= i < |ys| ensures (i in idx <==> keep(ys[i])) {
      if i == |xs| {
        assert i !in idx;
      }
    }
  }

  /** The positions of `xs` whose element satisfies `keep`, in increasing order. */
  ghost function KeptIndices<T>(xs: seq<T>, keep: T -> bool): seq<nat>
    decreases |xs|
  {
    if xs == [] then []
    else KeptIndices(xs[..|xs| - 1], keep) + (if keep(xs[|xs| - 1]) then [|xs| - 1] else [])
  }

  /** `KeptIndices` are exactly the kept positions, and the filter picks the elements there. */
  lemma {:induction false} KeptIndicesCorrect<T>(xs: seq<T>, keep: T -> bool)
    ensures KeptPositions(KeptIndices(xs, keep), xs, keep)
    ensures Picks(Filter(xs, keep), xs, KeptIndices(xs, keep))
    decreases |xs|
  {
    if xs != [] {
      var n := |xs| - 1;
      var init := xs[..n];
      KeptIndicesCorrect(init, keep);
      assert init + [xs[n]] == xs;
      if keep(xs[n]) {
        KeptPositionsGrow(KeptIndices(init, keep), Filter(init, keep), init, xs[n], keep);
      } else {
        KeptPositionsStay(KeptIndices(init, keep), Filter(init, keep), init, xs[n], keep);
      }
    }
  }

  /** The filter is exactly the subsequence of `xs` at the positions whose element
      satisfies `keep`: nothing kept is missing, nothing else is added, the order is kept. */
  lemma FilterIsSubsequence<T>(xs: seq<T>, keep: T -> bool)
    ensures exists idx :: KeptPositions(idx, xs, keep) && Picks(Filter(xs, keep), xs, idx)
  {
    KeptIndicesCorrect(xs, keep);
  }

  /** Filtering works piecewise: filtering `a + b` keeps `a`'s elements, then `b`'s. */
  lemma {:induction false} FilterAppend<T>(a: seq<T>, b: seq<T>, keep: T -> bool)
    ensures Filter(a + b, keep) == Filter(a, keep) + Filter(b, keep)
    decreases |b|
  {
    if b == [] {
      assert a + b == a;
    } else {
      var b' := b[..|b| - 1];
      assert (a + b)[..|a + b| - 1] == a + b';
      assert (a + b)[|a + b| - 1] == b[|b| - 1];
      FilterAppend(a, b', keep);
    }
  }

  /** Removing the element at `j` loses one kept element exactly when that element is kept. */
  lemma FilterCountRemove<T>(b: seq<T>, j: nat, keep: T -> bool)
    requires j < |b|
    ensures |Filter(b, keep)| == |Filter(b[..j] + b[j + 1..], keep)| + (if keep(b[j]) then 1 else 0)
  {
    assert b == b[..j] + [b[j]] + b[j + 1..];
    FilterAppend(b[..j] + [b[j]], b[j + 1..], keep);
    FilterAppend(b[..j], [b[j]], keep);
    FilterAppend(b[..j], b[j + 1..], keep);
    assert Filter([b[j]], keep) == Filter([], keep) + (if keep(b[j]) then [b[j]] else []);
  }

  /** Taking the same element out of two sequences with equal multisets keeps them equal. */
  lemma MultisetRemove<T>(a: seq<T>, b: seq<T>, j: nat)
    requires a != [] && multiset(a) == multiset(b)
    requires j < |b| && b[j] == a[|a| - 1]
    ensures multiset(a[..|a| - 1]) == multiset(b[..j] + b[j + 1..])
  {
    var n := |a| - 1;
    var x := a[n];
    var b' := b[..j] + b[j + 1..];
    assert a == a[..n] + [x];
    assert b == b[..j] + [x] + b[j + 1..];
    assert multiset(a[..n]) + multiset{x} == multiset(b') + multiset{x};
    forall y ensures multiset(a[..n])[y] == multiset(b')[y] {
      assert (multiset(a[..n]) + multiset{x})[y] == (multiset(b') + multiset{x})[y];
    }
  }

  /** How many elements are kept does not depend on their order. */
  lemma {:induction false} FilterCountPermutation<T>(a: seq<T>, b: seq<T>, keep: T -> bool)
    requires multiset(a) == multiset(b)
    ensures |Filter(a, keep)| == |Filter(b, keep)|
    decreases |a|
  {
    if a == [] {
      assert |b| == |multiset(b)| == 0;
    } else {
      var n := |a| - 1;
      assert a[n] in multiset(b);
      var j :| 0 <= j < |b| && b[j] == a[n];
      MultisetRemove(a, b, j);
      FilterCountPermutation(a[..n], b[..j] + b[j + 1..], keep);
      FilterCountRemove(b, j, keep);
      FilterSnoc(a, n, keep);
      assert a[..n + 1] == a;
    }
  }
}
