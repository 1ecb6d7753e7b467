/** Durstenfeld's in-place variant of the Fisher-Yates shuffle, as used by
    `generateRandomIndicies` of the Ising simulator and by `shuffle` of the
    handwriting trainer. The random source is injected: each call of
    `Math.random()` is a draw `p` with `0 <= p < 1`, supplied in the order
    the loop consumes them. */
module Shuffles {

  /** A value `Math.random()` can return. */
  predicate IsUnitDraw(p: real)
  {
    0.0 <= p < 1.0
  }

  /** `Math.floor(p * (i + 1))`: the partner chosen for position `i`. */
  function SwapIndex(p: real, i: nat): (j: nat)
    requires IsUnitDraw(p)
    ensures j <= i
  {
    assert p * (i + 1) as real < (i + 1) as real;
    (p * (i + 1) as real).Floor
  }

  /** One draw for each `i` from `n - 1` down to `1`. */
  function DrawCount(n: nat): nat
  {
    if n == 0 then 0 else n - 1
  }

  /** The draws one pass over `n` elements consumes, first draw first. */
  predicate ValidDraws(draws: seq<real>, n: nat)
  {
    |draws| == DrawCount(n) && forall t :: 0 <= t < |draws| ==> IsUnitDraw(draws[t])
  }

  /** No value occurs twice. */
  predicate Distinct<T(==)>(s: seq<T>)
  {
    forall a, b :: 0 <= a < b < |s| ==> s[a] != s[b]
  }

  /** `[s[i], s[j]] = [s[j], s[i]]`. */
  function Swap<T(==)>(s: seq<T>, i: nat, j: nat): (r: seq<T>)
    requires i < |s| && j < |s|
    ensures |r| == |s|
    ensures r[i] == s[j] && r[j] == s[i]
    ensures forall k :: 0 <= k < |s| && k != i && k != j ==> r[k] == s[k]
  {
    s[i := s[j]][j := s[i]]
  }

  lemma SwapMultiset<T>(s: seq<T>, i: nat, j: nat)
    requires i < |s| && j < |s|
    ensures multiset(Swap(s, i, j)) == multiset(s)
  {
  }

  lemma SwapDistinct<T>(s: seq<T>, i: nat, j: nat)
    requires i < |s| && j < |s|
    requires Distinct(s)
    ensures Distinct(Swap(s, i, j))
  {
  }

  /** The loop `for (i = top; i > 0; i--)` swapping position `i` with the
      position its draw selects. Positions above `top` are never touched. */
  function ShuffleDown<T(==)>(s: seq<T>, top: nat, draws: seq<real>): (r: seq<T>)
    requires top < |s| || top == 0
    requires |draws| == top
    requires forall t :: 0 <= t < |draws| ==> IsUnitDraw(draws[t])
    ensures |r| == |s|
    ensures forall k :: top < k < |s| ==> r[k] == s[k]
    decreases top
  {
    if top == 0 then s
    else ShuffleDown(Swap(s, top, SwapIndex(draws[0], top)), top - 1, draws[1..])
  }

  /** A shuffle only rearranges: every value keeps its multiplicity. */
  lemma {:induction false} ShuffleMultiset<T>(s: seq<T>, top: nat, draws: seq<real>)
    requires top < |s| || top == 0
    requires |draws| == top
    requires forall t :: 0 <= t < |draws| ==> IsUnitDraw(draws[t])
    ensures multiset(ShuffleDown(s, top, draws)) == multiset(s)
    decreases top
  {
    if top > 0 {
      var j := SwapIndex(draws[0], top);
      SwapMultiset(s, top, j);
      ShuffleMultiset(Swap(s, top, j), top - 1, draws[1..]);
    }
  }

  /** A shuffle never makes two positions hold the same value. */
  lemma {:induction false} ShuffleDistinct<T>(s: seq<T>, top: nat, draws: seq<real>)
    requires top < |s| || top == 0
    requires |draws| == top
    requires forall t :: 0 <= t < |draws| ==> IsUnitDraw(draws[t])
    requires Distinct(s)
    ensures Distinct(ShuffleDown(s, top, draws))
    decreases top
  {
    if top > 0 {
      var j := SwapIndex(draws[0], top);
      SwapDistinct(s, top, j);
      ShuffleDistinct(Swap(s, top, j), top - 1, draws[1..]);
    }
  }

  /** Durstenfeld's shuffle of the first `n` elements of `s`. */
  function Durstenfeld<T(==)>(s: seq<T>, n: nat, draws: seq<real>): seq<T>
    requires n <= |s|
    requires ValidDraws(draws, n)
  {
    if n == 0 then s else ShuffleDown(s, n - 1, draws)
  }

  /** `[0, 1, ..., n - 1]`. */
  function Range(n: nat): (r: seq<nat>)
    ensures |r| == n && forall i :: 0 <= i < n ==> r[i] == i
  {
    seq(n, i requires 0 <= i < n => i)
  }

  /** Each of `0 .. n - 1` exactly once. */
  predicate IsIndexPermutation(p: seq<nat>, n: nat)
  {
    && |p| == n
    && (forall i :: 0 <= i < n ==> p[i] < n)
    && (forall x :: 0 <= x < n ==> x in p)
    && Distinct(p)
  }

  /** Shuffling `[0, ..., n - 1]` yields each index exactly once. */
  lemma ShuffledRangeIsPermutation(n: nat, draws: seq<real>)
    requires ValidDraws(draws, n)
    ensures IsIndexPermutation(Durstenfeld(Range(n), n, draws), n)
  {
    var p := Durstenfeld(Range(n), n, draws);
    var r := Range(n);
    if n > 0 {
      ShuffleMultiset(r, n - 1, draws);
      ShuffleDistinct(r, n - 1, draws);
    }
    assert multiset(p) == multiset(r);
    forall x | 0 <= x < n
      ensures x in p
    {
      assert r[x] == x;
      assert x in multiset(r);
    }
    forall i | 0 <= i < n
      ensures p[i] < n
    {
      assert p[i] in multiset(r);
    }
  }

  /** `generateRandomIndicies(size)` called with the lattice's own size. */
  function RandomIndices(n: nat, draws: seq<real>): (p: seq<nat>)
    requires ValidDraws(draws, n)
    ensures IsIndexPermutation(p, n)
  {
    ShuffledRangeIsPermutation(n, draws);
    Durstenfeld(Range(n), n, draws)
  }

  /** The loop of `generateRandomIndicies`, swapping in place. */
  method GenerateRandomIndices(size: nat, draws: seq<real>) returns (indices: seq<nat>)
    requires ValidDraws(draws, size)
    ensures indices == RandomIndices(size, draws)
    ensures IsIndexPermutation(indices, size)
  {
    indices := Range(size);
    if size == 0 {
      return;
    }
    var i := size - 1;
    var t := 0;
    while i > 0
      invariant 0 <= i < size && t == size - 1 - i
      invariant |indices| == size
      invariant ShuffleDown(indices, i, draws[t..]) == RandomIndices(size, draws)
      decreases i
    {
      var j := SwapIndex(draws[t], i);
      assert draws[t..][0] == draws[t] && draws[t..][1..] == draws[t + 1..];
      indices := indices[i := indices[j]][j := indices[i]];
      i := i - 1;
      t := t + 1;
    }
  }

  /** `s` read through a sequence of positions. */
  function Gather<T>(s: seq<T>, idx: seq<nat>): (r: seq<T>)
    requires forall k :: 0 <= k < |idx| ==> idx[k] < |s|
    ensures |r| == |idx| && forall k :: 0 <= k < |idx| ==> r[k] == s[idx[k]]
  {
    seq(|idx|, k requires 0 <= k < |idx| => s[idx[k]])
  }

  /** Shuffling values and shuffling the positions they are read through
      are the same thing. */
  lemma {:induction false} ShuffleGather<T>(s: seq<T>, idx: seq<nat>, top: nat, draws: seq<real>)
    requires forall k :: 0 <= k < |idx| ==> idx[k] < |s|
    requires top < |idx| || top == 0
    requires |draws| == top
    requires forall t :: 0 <= t < |draws| ==> IsUnitDraw(draws[t])
    ensures var p := ShuffleDown<nat>(idx, top, draws);
      && (forall k :: 0 <= k < |p| ==> p[k] < |s|)
      && ShuffleDown(Gather(s, idx), top, draws) == Gather(s, p)
    decreases top
  {
    var p := ShuffleDown(idx, top, draws);
    ShuffleMultiset(idx, top, draws);
    assert forall k :: 0 <= k < |p| ==> p[k] in multiset(idx);
    if top > 0 {
      var j := SwapIndex(draws[0], top);
      var idx' := Swap(idx, top, j);
      assert Swap(Gather(s, idx), top, j) == Gather(s, idx');
      ShuffleGather(s, idx', top - 1, draws[1..]);
    }
  }

  /** Elements after the shuffled prefix travel along unchanged. */
  lemma {:induction false} ShuffleAppend<T>(a: seq<T>, b: seq<T>, top: nat, draws: seq<real>)
    requires top < |a| || top == 0
    requires |draws| == top
    requires forall t :: 0 <= t < |draws| ==> IsUnitDraw(draws[t])
    ensures ShuffleDown(a + b, top, draws) == ShuffleDown(a, top, draws) + b
    decreases top
  {
    if top > 0 {
      var j := SwapIndex(draws[0], top);
      assert Swap(a + b, top, j) == Swap(a, top, j) + b;
      ShuffleAppend(Swap(a, top, j), b, top - 1, draws[1..]);
    }
  }

  /** A Durstenfeld pass moves the value at position `RandomIndices(n, draws)[m]`
      to position `m`, whatever the values are: the permutation depends on the
      draws and `n` alone. */
  lemma SharedPermutation<T>(s: seq<T>, n: nat, draws: seq<real>)
    requires n <= |s|
    requires ValidDraws(draws, n)
    ensures var r := Durstenfeld(s, n, draws);
      && |r| == |s|
      && (forall m :: 0 <= m < n ==> r[m] == s[RandomIndices(n, draws)[m]])
      && (forall m :: n <= m < |s| ==> r[m] == s[m])
  {
    if n > 0 {
      var all := Range(|s|);
      var tail := all[n..];
      assert all == Range(n) + tail;
      assert Gather(s, all) == s;
      ShuffleGather(s, all, n - 1, draws);
      ShuffleAppend(Range(n), tail, n - 1, draws);
      var order := ShuffleDown<nat>(all, n - 1, draws);
      assert Durstenfeld(s, n, draws) == Gather(s, order);
      assert order == RandomIndices(n, draws) + tail;
    }
  }
}
