/** Ranking of knowledge-base entries by similarity score, as done by
    `np.argsort(sims)[-top_k:][::-1]` in `RAGSystem.search`.

    The scores are an input (they come from an embedding model). The order in
    which `np.argsort` lists equal scores is not fixed by its default sorting
    algorithm, so the argsort permutation is an input too, constrained by
    `IsArgsort`; `StableArgsort` shows that such a permutation always exists. */
module Ranking {

  /** The indices `0, 1, ..., n - 1`. */
  function Range(n: nat): seq<int> {
    seq(n, i => i)
  }

  /** Every element of `p` is an index into a sequence of length `n`. */
  predicate IndicesIn(p: seq<int>, n: int) {
    forall i :: 0 <= i < |p| ==> 0 <= p[i] < n
  }

  /** `p` lists indices of `scores` in non-decreasing score order. */
  predicate Ascending(scores: seq<real>, p: seq<int>) {
    && IndicesIn(p, |scores|)
    && (forall i, j :: 0 <= i < j < |p| ==> scores[p[i]] <= scores[p[j]])
  }

  /** `p` lists indices of `scores` in non-increasing score order. */
  predicate Descending(scores: seq<real>, p: seq<int>) {
    && IndicesIn(p, |scores|)
    && (forall i, j :: 0 <= i < j < |p| ==> scores[p[i]] >= scores[p[j]])
  }

  /** `p` is a value `np.argsort(scores)` may return: a permutation of the
      indices of `scores`, in non-decreasing score order. */
  predicate IsArgsort(scores: seq<real>, p: seq<int>) {
    multiset(p) == multiset(Range(|scores|)) && Ascending(scores, p)
  }

  /** No index occurs twice in `p`. */
  predicate Distinct(p: seq<int>) {
    forall i, j :: 0 <= i < j < |p| ==> p[i] != p[j]
  }

  lemma {:induction false} RangeMultiplicity(n: nat, x: int)
    ensures multiset(Range(n))[x] == if 0 <= x < n then 1 else 0
  {
    if n > 0 {
      assert Range(n) == Range(n - 1) + [n - 1];
      RangeMultiplicity(n - 1, x);
    }
  }

  /** A sequence in which no value occurs twice (by multiplicity) has
      pairwise different elements. */
  lemma DistinctFromMultiplicity(p: seq<int>)
    requires forall x :: multiset(p)[x] <= 1
    ensures Distinct(p)
  {
    forall i, j | 0 <= i < j < |p|
      ensures p[i] != p[j]
    {
      var v := p[j];
      assert multiset(p)[v] <= 1;
      var pre := p[..j];
      assert p == pre + [v] + p[j + 1..];
      assert multiset(p)[v] == multiset(pre)[v] + 1 + multiset(p[j + 1..])[v];
      assert multiset(pre)[v] == 0;
      assert pre[i] == p[i];
      assert p[i] in multiset(pre);
    }
  }

  /** The shape facts an argsort permutation provides. */
  lemma ArgsortFacts(scores: seq<real>, p: seq<int>)
    requires IsArgsort(scores, p)
    ensures |p| == |scores|
    ensures Distinct(p)
    ensures forall x :: 0 <= x < |scores| ==> x in p
  {
    assert |p| == |multiset(p)| == |multiset(Range(|scores|))| == |scores|;
    forall x
      ensures multiset(p)[x] <= 1
    {
      RangeMultiplicity(|scores|, x);
    }
    DistinctFromMultiplicity(p);
    forall x | 0 <= x < |scores|
      ensures x in p
    {
      RangeMultiplicity(|scores|, x);
      assert x in multiset(p);
    }
  }

  /** Inserts index `x` into the ascending list `p` after every index whose
      score does not exceed that of `x`. */
  function InsertByScore(scores: seq<real>, x: int, p: seq<int>): (r: seq<int>)
    requires 0 <= x < |scores| && Ascending(scores, p)
    ensures multiset(r) == multiset(p) + multiset{x}
    ensures Ascending(scores, r)
  {
    if p == [] then [x]
    else if scores[x] < scores[p[0]] then [x] + p
    else
      var rest := InsertByScore(scores, x, p[1..]);
      FirstIsLeast(scores, x, p, rest);
      KeepFirst(scores, x, p, rest);
      [p[0]] + rest
  }

  /** The first index of `p` in front of the insertion into the rest. */
  lemma KeepFirst(scores: seq<real>, x: int, p: seq<int>, rest: seq<int>)
    requires p != [] && 0 <= p[0] < |scores|
    requires multiset(rest) == multiset(p[1..]) + multiset{x} && Ascending(scores, rest)
    requires forall j :: 0 <= j < |rest| ==> 0 <= rest[j] < |scores| && scores[p[0]] <= scores[rest[j]]
    ensures multiset([p[0]] + rest) == multiset(p) + multiset{x}
    ensures Ascending(scores, [p[0]] + rest)
  {
    assert p == [p[0]] + p[1..];
    var r := [p[0]] + rest;
    assert forall j :: 0 < j < |r| ==> r[j] == rest[j - 1];
  }

  /** Every element of a rearrangement of `p[1..]` and `x` scores at least
      as much as `p[0]`, when `p` is ascending and `x` does not score less. */
  lemma FirstIsLeast(scores: seq<real>, x: int, p: seq<int>, rest: seq<int>)
    requires 0 <= x < |scores| && Ascending(scores, p) && p != []
    requires scores[p[0]] <= scores[x]
    requires multiset(rest) == multiset(p[1..]) + multiset{x}
    ensures forall j :: 0 <= j < |rest| ==> 0 <= rest[j] < |scores| && scores[p[0]] <= scores[rest[j]]
  {
    forall j | 0 <= j < |rest|
      ensures 0 <= rest[j] < |scores| && scores[p[0]] <= scores[rest[j]]
    {
      assert rest[j] in multiset(rest);
      if rest[j] != x {
        assert rest[j] in multiset(p[1..]);
        var m :| 0 <= m < |p[1..]| && p[1..][m] == rest[j];
        assert p[m + 1] == rest[j];
      }
    }
  }

  /** Insertion sort of the indices `xs` by score (stable). */
  function SortByScore(scores: seq<real>, xs: seq<int>): (r: seq<int>)
    requires IndicesIn(xs, |scores|)
    ensures multiset(r) == multiset(xs)
    ensures Ascending(scores, r)
  {
    if xs == [] then []
    else
      var init := xs[..|xs| - 1];
      assert xs == init + [xs[|xs| - 1]];
      InsertByScore(scores, xs[|xs| - 1], SortByScore(scores, init))
  }

  /** A stable argsort: one of the permutations `np.argsort` may return. */
  function StableArgsort(scores: seq<real>): (p: seq<int>)
    ensures IsArgsort(scores, p)
  {
    SortByScore(scores, Range(|scores|))
  }

  /** Python's rule for the start index `a` of a slice of a sequence of
      length `n`: a negative index counts from the end and is clamped at 0,
      a non-negative one is clamped at `n`. */
  function StartIndex(a: int, n: nat): nat {
    if a < 0 then (if n + a < 0 then 0 else n + a)
    else if a < n then a else n
  }

  /** The start of the slice `p[-k:]` for a sequence of length `n`: the
      general rule applied to the index `-k`. So `k = 0` keeps everything,
      a positive `k` keeps the last `min(k, n)` elements and a negative `k`
      drops the first `-k` elements. */
  function SliceStart(n: nat, k: int): (s: nat)
    ensures s == StartIndex(-k, n)
    ensures s <= n
    ensures k > 0 ==> n - s == (if k < n then k else n)
    ensures k == 0 ==> s == 0
    ensures k < 0 ==> s == (if -k < n then -k else n)
  {
    if k > 0 then (if k < n then n - k else 0)
    else if -k < n then -k else n
  }

  function Reverse(s: seq<int>): (r: seq<int>)
    ensures |r| == |s|
    ensures forall i :: 0 <= i < |s| ==> r[i] == s[|s| - 1 - i]
  {
    if s == [] then [] else Reverse(s[1..]) + [s[0]]
  }

  /** `order[-k:][::-1]`: the indices of the `k` best scores, best first.
      For `k >= 1` that is `min(k, n)` indices; `k = 0` selects all of them
      (the slice `[-0:]` is the whole array). The selection is made of
      distinct indices in non-increasing score order, and no index left out
      has a higher score than one selected. */
  function TopIndices(scores: seq<real>, order: seq<int>, k: int): (t: seq<int>)
    requires IsArgsort(scores, order)
    ensures k >= 1 ==> |t| == (if k < |scores| then k else |scores|)
    ensures k == 0 ==> |t| == |scores|
    ensures k < 0 ==> |t| == (if -k < |scores| then |scores| + k else 0)
    ensures Distinct(t)
    ensures Descending(scores, t)
    ensures forall i, j :: 0 <= i < |t| && 0 <= j < |scores| && j !in t ==> scores[j] <= scores[t[i]]
  {
    ArgsortFacts(scores, order);
    var s := SliceStart(|order|, k);
    var t := Reverse(order[s..]);
    ReversedSuffix(scores, order, s, t);
    t
  }

  /** The reversed suffix of an argsort permutation is made of distinct
      indices, best first, and dominates every index left out. */
  lemma ReversedSuffix(scores: seq<real>, order: seq<int>, s: nat, t: seq<int>)
    requires IsArgsort(scores, order) && |order| == |scores| && Distinct(order)
    requires forall x :: 0 <= x < |scores| ==> x in order
    requires s <= |order| && t == Reverse(order[s..])
    ensures Distinct(t) && Descending(scores, t)
    ensures forall i, j :: 0 <= i < |t| && 0 <= j < |scores| && j !in t ==> scores[j] <= scores[t[i]]
  {
    var n := |order|;
    assert forall i :: 0 <= i < |t| ==> t[i] == order[n - 1 - i];
    SuffixDominates(scores, order, s, t);
  }

  /** The reversed suffix `t` of an argsort permutation scores at least as
      much as every index outside it. */
  lemma SuffixDominates(scores: seq<real>, order: seq<int>, s: nat, t: seq<int>)
    requires IsArgsort(scores, order) && |order| == |scores|
    requires forall x :: 0 <= x < |scores| ==> x in order
    requires s <= |order| && |t| == |order| - s
    requires forall i :: 0 <= i < |t| ==> t[i] == order[|order| - 1 - i]
    ensures forall i, j :: 0 <= i < |t| && 0 <= j < |scores| && j !in t ==> scores[j] <= scores[t[i]]
  {
    var n := |order|;
    forall i, j | 0 <= i < |t| && 0 <= j < |scores| && j !in t
      ensures scores[j] <= scores[t[i]]
    {
      assert j in order;
      var m :| 0 <= m < n && order[m] == j;
      assert forall q :: s <= q < n ==> t[n - 1 - q] == order[q];
      assert m < s;
      assert s <= n - 1 - i;
    }
  }

  /** Whenever the selection is not empty, its first index has the highest
      score of all. */
  lemma TopIsGlobalMax(scores: seq<real>, order: seq<int>, k: int)
    requires IsArgsort(scores, order)
    requires |TopIndices(scores, order, k)| > 0
    ensures forall j :: 0 <= j < |scores| ==> scores[j] <= scores[TopIndices(scores, order, k)[0]]
  {
    var t := TopIndices(scores, order, k);
    forall j | 0 <= j < |scores|
      ensures scores[j] <= scores[t[0]]
    {
      if j in t {
        var m :| 0 <= m < |t| && t[m] == j;
      }
    }
  }
}
