/**
 * Order-preserving selection from a sequence: the shape shared by a list
 * comprehension with an `if` and by boolean-mask row selection in pandas.
 */
module Seqs {

  /** The elements of `s` that satisfy `p`, in their original order. */
  function Filter<T>(s: seq<T>, p: T -> bool): (r: seq<T>)
    ensures |r| <= |s|
  {
    if s == [] then []
    else Filter(s[..|s| - 1], p) + (if p(s[|s| - 1]) then [s[|s| - 1]] else [])
  }

  /** An element is selected exactly when it occurs and satisfies `p`. */
  lemma {:induction false} FilterMembers<T>(s: seq<T>, p: T -> bool)
    ensures forall x :: x in Filter(s, p) ==> x in s && p(x)
    ensures forall x :: x in s && p(x) ==> x in Filter(s, p)
  {
    if s != [] {
      var init := s[..|s| - 1];
      assert s == init + [s[|s| - 1]];
      FilterMembers(init, p);
    }
  }

  /** The positions of `s` whose elements satisfy `p`, ascending. */
  function KeptIndices<T>(s: seq<T>, p: T -> bool): (idx: seq<nat>)
    ensures forall k :: 0 <= k < |idx| ==> idx[k] < |s|
  {
    if s == [] then []
    else KeptIndices(s[..|s| - 1], p) + (if p(s[|s| - 1]) then [|s| - 1] else [])
  }

  /** Each index is smaller than the next. */
  predicate StrictlyIncreasing(idx: seq<nat>) {
    forall k, l :: 0 <= k < l < |idx| ==> idx[k] < idx[l]
  }

  /** The kept positions ascend. */
  lemma {:induction false} KeptIndicesIncreasing<T>(s: seq<T>, p: T -> bool)
    ensures StrictlyIncreasing(KeptIndices(s, p))
  {
    if s != [] {
      var n := |s| - 1;
      KeptIndicesIncreasing(s[..n], p);
      var idx0 := KeptIndices(s[..n], p);
      assert KeptIndices(s, p) == idx0 + (if p(s[n]) then [n] else []);
    }
  }

  /** A position is kept exactly when its element satisfies `p`. */
  lemma {:induction false} KeptIndicesExact<T>(s: seq<T>, p: T -> bool)
    ensures forall i :: 0 <= i < |s| ==> (p(s[i]) <==> i in KeptIndices(s, p))
  {
    if s != [] {
      var n := |s| - 1;
      var init := s[..n];
      KeptIndicesExact(init, p);
      var idx0 := KeptIndices(init, p);
      assert KeptIndices(s, p) == idx0 + (if p(s[n]) then [n] else []);
      forall i | 0 <= i < |s| ensures p(s[i]) <==> i in KeptIndices(s, p) {
        if i < n {
          assert s[i] == init[i];
        }
      }
    }
  }

  /** The `k`-th selected element sits at the `k`-th kept position. */
  lemma {:induction false} FilterAtKept<T>(s: seq<T>, p: T -> bool)
    ensures |KeptIndices(s, p)| == |Filter(s, p)|
    ensures forall k :: 0 <= k < |Filter(s, p)| ==> Filter(s, p)[k] == s[KeptIndices(s, p)[k]]
  {
    if s != [] {
      var n := |s| - 1;
      var init := s[..n];
      FilterAtKept(init, p);
      var r0, idx0 := Filter(init, p), KeptIndices(init, p);
      assert KeptIndices(s, p) == idx0 + (if p(s[n]) then [n] else []);
      assert Filter(s, p) == r0 + (if p(s[n]) then [s[n]] else []);
      forall k | 0 <= k < |r0| ensures Filter(s, p)[k] == s[KeptIndices(s, p)[k]] {
        assert s[idx0[k]] == init[idx0[k]];
      }
    }
  }

  /** `Filter` picks exactly the positions `KeptIndices` lists, in
      increasing order: it is the order-preserving subsequence of the
      elements that satisfy `p`. */
  lemma FilterSubsequence<T>(s: seq<T>, p: T -> bool)
    ensures var r, idx := Filter(s, p), KeptIndices(s, p);
      && |idx| == |r|
      && StrictlyIncreasing(idx)
      && (forall k :: 0 <= k < |r| ==> r[k] == s[idx[k]])
      && (forall i :: 0 <= i < |s| ==> (p(s[i]) <==> i in idx))
  {
    KeptIndicesIncreasing(s, p);
    KeptIndicesExact(s, p);
    FilterAtKept(s, p);
  }

  /** Selecting from a sequence extended by one element. */
  lemma FilterSnoc<T>(s: seq<T>, x: T, p: T -> bool)
    ensures Filter(s + [x], p) == Filter(s, p) + (if p(x) then [x] else [])
  {
    assert (s + [x])[..|s|] == s;
  }

  /** Selecting from a concatenation selects from each part. */
  lemma {:induction false} FilterAppend<T>(a: seq<T>, b: seq<T>, p: T -> bool)
    ensures Filter(a + b, p) == Filter(a, p) + Filter(b, p)
    decreases |b|
  {
    if b != [] {
      var b0 := b[..|b| - 1];
      assert (a + b)[..|a + b| - 1] == a + b0;
      FilterAppend(a, b0, p);
    } else {
      assert a + b == a;
    }
  }

  /** Selecting twice with the same test selects nothing more. */
  lemma {:induction false} FilterIdempotent<T>(s: seq<T>, p: T -> bool)
    ensures Filter(Filter(s, p), p) == Filter(s, p)
  {
    if s != [] {
      var init := s[..|s| - 1];
      var tail := if p(s[|s| - 1]) then [s[|s| - 1]] else [];
      FilterIdempotent(init, p);
      FilterAppend(Filter(init, p), tail, p);
      assert Filter(tail, p) == tail by {
        if tail != [] { assert tail[..|tail| - 1] == []; }
      }
    }
  }
}
