/** Order-preserving filtering, used for every row mask and column selection in the pipeline. */
module Sequences {

  /** The elements of `s` that satisfy `p`, in their original order (a boolean mask). */
  function Filter<T>(s: seq<T>, p: T -> bool): (r: seq<T>)
    ensures |r| <= |s|
    ensures forall x :: x in r ==> x in s && p(x)
    ensures forall i :: 0 <= i < |s| && p(s[i]) ==> s[i] in r
    ensures forall x :: x in s && p(x) ==> x in r
    ensures (forall i :: 0 <= i < |s| ==> !p(s[i])) ==> r == []
  {
    if s == [] then []
    else
      var init := Filter(s[..|s| - 1], p);
      assert s == s[..|s| - 1] + [s[|s| - 1]];
      assert forall i :: 0 <= i < |s| - 1 ==> s[..|s| - 1][i] == s[i];
      if p(s[|s| - 1]) then init + [s[|s| - 1]] else init
  }

  /** The positions `Filter` keeps. */
  function FilterIndices<T>(s: seq<T>, p: T -> bool): seq<nat>
  {
    if s == [] then []
    else
      var init := FilterIndices(s[..|s| - 1], p);
      if p(s[|s| - 1]) then init + [|s| - 1] else init
  }

  /** `a` is `b` read at the strictly increasing positions `idx`. */
  ghost predicate SubsequenceAt<T>(a: seq<T>, b: seq<T>, idx: seq<nat>)
  {
    && |idx| == |a|
    && (forall k :: 0 <= k < |idx| ==> idx[k] < |b| && a[k] == b[idx[k]])
    && (forall k, l :: 0 <= k < l < |idx| ==> idx[k] < idx[l])
  }

  /** Filtering keeps an order-preserving subsequence. */
  lemma {:induction false} FilterPreservesOrder<T>(s: seq<T>, p: T -> bool)
    ensures SubsequenceAt(Filter(s, p), s, FilterIndices(s, p))
  {
    if s != [] {
      var n := |s| - 1;
      var init := s[..n];
      assert s == init + [s[n]];
      FilterPreservesOrder(init, p);
      SubsequenceGrow(Filter(init, p), init, s[n], FilterIndices(init, p));
    }
  }

  /** A subsequence of `b` at `idx` stays one when `b` grows by `x`, and grows with it by `x`
      read at the new last position. */
  lemma SubsequenceGrow<T>(a: seq<T>, b: seq<T>, x: T, idx: seq<nat>)
    requires SubsequenceAt(a, b, idx)
    ensures SubsequenceAt(a, b + [x], idx)
    ensures SubsequenceAt(a + [x], b + [x], idx + [|b|])
  {
    var a', b', idx' := a + [x], b + [x], idx + [|b|];
    forall k | 0 <= k < |idx| ensures a[k] == b'[idx[k]] {
      assert b'[idx[k]] == b[idx[k]];
    }
    forall k | 0 <= k < |idx'| ensures idx'[k] < |b'| && a'[k] == b'[idx'[k]] {
      if k < |idx| {
        assert idx'[k] == idx[k] && a'[k] == a[k];
      }
    }
    forall k, l | 0 <= k < l < |idx'| ensures idx'[k] < idx'[l] {
      if l < |idx| {
        assert idx'[k] == idx[k] && idx'[l] == idx[l];
      } else {
        assert idx'[k] == idx[k] < |b|;
      }
    }
  }

  /** `a` is `b` read at some strictly increasing positions. */
  ghost predicate IsSubsequence<T>(a: seq<T>, b: seq<T>)
  {
    exists idx :: SubsequenceAt(a, b, idx)
  }

  /** A subsequence of a subsequence of `c` is a subsequence of `c`. */
  lemma SubsequenceTrans<T>(a: seq<T>, b: seq<T>, c: seq<T>)
    requires IsSubsequence(a, b) && IsSubsequence(b, c)
    ensures IsSubsequence(a, c)
  {
    var i1 :| SubsequenceAt(a, b, i1);
    var i2 :| SubsequenceAt(b, c, i2);
    var idx := seq(|i1|, k requires 0 <= k < |i1| => i2[i1[k]]);
    assert SubsequenceAt(a, c, idx);
  }

  /** What a filter keeps is a subsequence of what it filters. */
  lemma FilterIsSubsequence<T>(s: seq<T>, p: T -> bool)
    ensures IsSubsequence(Filter(s, p), s)
  {
    FilterPreservesOrder(s, p);
  }

  /** Filtering twice with the same mask changes nothing the second time. */
  lemma {:induction false} FilterIdempotent<T>(s: seq<T>, p: T -> bool)
    ensures Filter(Filter(s, p), p) == Filter(s, p)
  {
    if s != [] {
      var init := s[..|s| - 1];
      FilterIdempotent(init, p);
      var a := Filter(init, p);
      if p(s[|s| - 1]) {
        assert (a + [s[|s| - 1]])[..|a|] == a;
      }
    }
  }

  /** Two masks that agree on every element keep the same elements. */
  lemma {:induction false} FilterCongruent<T>(s: seq<T>, p: T -> bool, q: T -> bool)
    requires forall i :: 0 <= i < |s| ==> p(s[i]) == q(s[i])
    ensures Filter(s, p) == Filter(s, q)
  {
    if s != [] {
      FilterCongruent(s[..|s| - 1], p, q);
    }
  }

  /** A mask that holds everywhere keeps everything. */
  lemma {:induction false} FilterNone<T>(s: seq<T>, p: T -> bool)
    requires forall i :: 0 <= i < |s| ==> p(s[i])
    ensures Filter(s, p) == s
  {
    if s != [] {
      var init := s[..|s| - 1];
      assert forall i :: 0 <= i < |init| ==> init[i] == s[i];
      FilterNone(init, p);
      assert Filter(s, p) == Filter(init, p) + [s[|s| - 1]];
      assert s == init + [s[|s| - 1]];
    }
  }

  lemma {:induction false} FilterConcat<T>(a: seq<T>, b: seq<T>, p: T -> bool)
    ensures Filter(a + b, p) == Filter(a, p) + Filter(b, p)
  {
    if b != [] {
      var init := b[..|b| - 1];
      FilterConcat(a, init, p);
      assert (a + b)[..|a + b| - 1] == a + init;
    } else {
      assert a + b == a;
    }
  }

  /** The concatenation, in order, of what `f` gives for each element (a loop of appends). */
  function FlatMap<A, B>(s: seq<A>, f: A --> seq<B>): seq<B>
    requires forall i :: 0 <= i < |s| ==> f.requires(s[i])
  {
    if s == [] then [] else FlatMap(s[..|s| - 1], f) + f(s[|s| - 1])
  }

  /** An element of the concatenation comes from one of the parts, and every part is in it. */
  lemma {:induction false} FlatMapMembership<A, B>(s: seq<A>, f: A --> seq<B>)
    requires forall i :: 0 <= i < |s| ==> f.requires(s[i])
    ensures forall y :: y in FlatMap(s, f) ==> exists k :: 0 <= k < |s| && y in f(s[k])
    ensures forall k, y :: 0 <= k < |s| && y in f(s[k]) ==> y in FlatMap(s, f)
  {
    if s != [] {
      var n := |s| - 1;
      var init := s[..n];
      assert forall i :: 0 <= i < |init| ==> init[i] == s[i];
      FlatMapMembership(init, f);
      assert FlatMap(s, f) == FlatMap(init, f) + f(s[n]);
      forall k, y | 0 <= k < |s| && y in f(s[k])
        ensures y in FlatMap(s, f)
      {
        if k < n {
          assert y in f(init[k]);
        }
      }
      forall y | y in FlatMap(s, f)
        ensures exists k :: 0 <= k < |s| && y in f(s[k])
      {
        if y !in f(s[n]) {
          assert y in FlatMap(init, f);
          var k :| 0 <= k < |init| && y in f(init[k]);
          assert y in f(s[k]);
        }
      }
    }
  }

  /** Parts of at most one element each add at most one element per part. */
  lemma {:induction false} FlatMapLength<A, B>(s: seq<A>, f: A --> seq<B>)
    requires forall i :: 0 <= i < |s| ==> f.requires(s[i]) && |f(s[i])| <= 1
    ensures |FlatMap(s, f)| <= |s|
  {
    if s != [] {
      var init := s[..|s| - 1];
      assert forall i :: 0 <= i < |init| ==> init[i] == s[i];
      FlatMapLength(init, f);
      assert |FlatMap(s, f)| == |FlatMap(init, f)| + |f(s[|s| - 1])|;
    }
  }

  /** The positions below `n` that satisfy `p`, ascending (`df.index[mask]` as positions). */
  function Positions(n: nat, p: nat -> bool): (r: seq<nat>)
    ensures forall k :: 0 <= k < |r| ==> r[k] < n && p(r[k])
    ensures forall t: nat :: t < n && p(t) ==> t in r
    ensures forall k, l :: 0 <= k < l < |r| ==> r[k] < r[l]
  {
    if n == 0 then []
    else
      var init := Positions(n - 1, p);
      if p(n - 1) then init + [n - 1] else init
  }

  /** The elements of `s` at the positions `idx` (`s.iloc[idx]`). */
  function Keep<T>(s: seq<T>, idx: seq<nat>): (r: seq<T>)
    requires forall k :: 0 <= k < |idx| ==> idx[k] < |s|
    ensures |r| == |idx|
    ensures forall k :: 0 <= k < |idx| ==> r[k] == s[idx[k]]
  {
    seq(|idx|, k requires 0 <= k < |idx| => s[idx[k]])
  }
}
