/**
 * The ordering step of `distinct` linearization: the arguments, paired with
 * their values in the model, sorted by value (`std::sort` with
 * `compare_second`). The sort itself is specified, not modelled step by step:
 * an insertion sort serves as its reference definition.
 */
module Sorting {
  import opened Terms

  type Valued = seq<(Term, real)>

  /** The arguments paired with their model values, in argument order. */
  function Pairs(M: Model, args: seq<Term>): (r: Valued)
    ensures |r| == |args|
    ensures forall k :: 0 <= k < |r| ==> r[k] == (args[k], Eval(M, args[k]))
  {
    if args == [] then []
    else Pairs(M, args[..|args| - 1]) + [(args[|args| - 1], Eval(M, args[|args| - 1]))]
  }

  /** The pairs of a prefix one longer gain the pair of the next argument. */
  lemma PairsSnoc(M: Model, args: seq<Term>, i: nat)
    requires i < |args|
    ensures Pairs(M, args[..i + 1]) == Pairs(M, args[..i]) + [(args[i], Eval(M, args[i]))]
  {
    assert args[..i + 1][..i] == args[..i];
  }

  predicate KeysDistinct(s: Valued) {
    forall i, j :: 0 <= i < j < |s| ==> s[i].1 != s[j].1
  }

  predicate StrictlySorted(s: Valued) {
    forall i, j :: 0 <= i < j < |s| ==> s[i].1 < s[j].1
  }

  /** Every pair carries the value of its term in `M`. */
  predicate ValuesOf(M: Model, s: Valued) {
    forall k :: 0 <= k < |s| ==> s[k].1 == Eval(M, s[k].0)
  }

  /** Where `x` goes in a sorted sequence: before the first larger value. */
  function InsertPos(x: (Term, real), r: Valued): (p: nat)
    ensures p <= |r|
    ensures forall k :: 0 <= k < p ==> r[k].1 <= x.1
    ensures p < |r| ==> r[p].1 > x.1
  {
    if r == [] then 0
    else if r[0].1 > x.1 then 0
    else 1 + InsertPos(x, r[1..])
  }

  function InsertByValue(x: (Term, real), r: Valued): (out: Valued)
    requires StrictlySorted(r)
    requires forall k :: 0 <= k < |r| ==> r[k].1 != x.1
    ensures StrictlySorted(out)
    ensures multiset(out) == multiset(r) + multiset{x}
  {
    var p := InsertPos(x, r);
    InsertAt(x, r, p);
    r[..p] + [x] + r[p..]
  }

  /** Putting `x` between the values below it and those above it keeps the order and adds `x` once. */
  lemma InsertAt(x: (Term, real), r: Valued, p: nat)
    requires StrictlySorted(r) && p <= |r|
    requires forall k :: 0 <= k < |r| ==> r[k].1 != x.1
    requires forall k :: 0 <= k < p ==> r[k].1 <= x.1
    requires p < |r| ==> r[p].1 > x.1
    ensures StrictlySorted(r[..p] + [x] + r[p..])
    ensures multiset(r[..p] + [x] + r[p..]) == multiset(r) + multiset{x}
  {
    forall k | p <= k < |r| ensures x.1 < r[k].1 {
      assert p == k || r[p].1 < r[k].1;
    }
    InsertBetween(x, r, p);
    assert r == r[..p] + r[p..];
  }

  lemma InsertBetween(x: (Term, real), r: Valued, p: nat)
    requires StrictlySorted(r) && p <= |r|
    requires forall k :: 0 <= k < p ==> r[k].1 < x.1
    requires forall k :: p <= k < |r| ==> x.1 < r[k].1
    ensures StrictlySorted(r[..p] + [x] + r[p..])
  {
    var out := r[..p] + [x] + r[p..];
    forall i, j | 0 <= i < j < |out| ensures out[i].1 < out[j].1 {
      if j < p {
        assert out[i] == r[i] && out[j] == r[j];
      } else if j == p {
        assert out[i] == r[i] && out[j] == x;
      } else {
        assert out[j] == r[j - 1];
        if i < p {
          assert out[i] == r[i];
        } else if i == p {
          assert out[i] == x;
        } else {
          assert out[i] == r[i - 1];
        }
      }
    }
  }

  /** The keys of a permutation of `s` are keys of `s`. */
  lemma KeysAvoid(s: Valued, r: Valued)
    requires KeysDistinct(s) && s != []
    requires multiset(r) == multiset(s[..|s| - 1])
    ensures forall k :: 0 <= k < |r| ==> r[k].1 != s[|s| - 1].1
  {
    var n := |s| - 1;
    forall k | 0 <= k < |r| ensures r[k].1 != s[n].1 {
      assert r[k] in multiset(s[..n]);
      var i :| 0 <= i < n && s[..n][i] == r[k];
      assert s[i] == r[k];
    }
  }

  /** `std::sort` by value: strictly increasing, and a permutation of the input. */
  function SortByValue(s: Valued): (r: Valued)
    requires KeysDistinct(s)
    ensures StrictlySorted(r)
    ensures multiset(r) == multiset(s)
  {
    if s == [] then []
    else
      var n := |s| - 1;
      assert s == s[..n] + [s[n]];
      var r0 := SortByValue(s[..n]);
      KeysAvoid(s, r0);
      InsertByValue(s[n], r0)
  }

  /** Model values are kept by any permutation. */
  lemma PermutedValues(M: Model, s: Valued, r: Valued)
    requires ValuesOf(M, s) && multiset(r) == multiset(s)
    ensures ValuesOf(M, r)
  {
    forall k | 0 <= k < |r| ensures r[k].1 == Eval(M, r[k].0) {
      assert r[k] in multiset(s);
    }
  }

  lemma PermutedLength(s: Valued, r: Valued)
    requires multiset(r) == multiset(s)
    ensures |r| == |s|
  {
    assert |multiset(r)| == |multiset(s)|;
  }

  /** Each term of a permutation of the pairs weighs at most all the arguments together. */
  lemma PermutedWeights(M: Model, args: seq<Term>, r: Valued)
    requires multiset(r) == multiset(Pairs(M, args))
    ensures forall k :: 0 <= k < |r| ==> WeightT(r[k].0) <= SumT(args)
  {
    var nums := Pairs(M, args);
    forall k | 0 <= k < |r| ensures WeightT(r[k].0) <= SumT(args) {
      assert r[k] in multiset(nums);
      var m :| 0 <= m < |nums| && nums[m] == r[k];
      ElemWeight(args, m);
    }
  }

  /** Distinct values in `M` give distinct keys to the pairs. */
  lemma PairsKeysDistinct(M: Model, args: seq<Term>)
    requires Holds(M, Distinct(args))
    ensures KeysDistinct(Pairs(M, args))
  {
  }

  /** Neighbours strictly increasing in `M'`. */
  predicate Chain(M': Model, r: Valued) {
    forall i :: 0 <= i < |r| - 1 ==> Eval(M', r[i].0) < Eval(M', r[i + 1].0)
  }

  predicate Increasing(M': Model, r: Valued) {
    forall i, j :: 0 <= i < j < |r| ==> Eval(M', r[i].0) < Eval(M', r[j].0)
  }

  lemma {:induction false} ChainIncreasing(M': Model, r: Valued)
    requires Chain(M', r)
    ensures Increasing(M', r)
  {
    if |r| > 1 {
      var n := |r| - 1;
      assert Chain(M', r[..n]) by {
        forall i | 0 <= i < n - 1 ensures Eval(M', r[..n][i].0) < Eval(M', r[..n][i + 1].0) {
          assert r[..n][i] == r[i] && r[..n][i + 1] == r[i + 1];
        }
      }
      ChainIncreasing(M', r[..n]);
      forall i, j | 0 <= i < j < |r| ensures Eval(M', r[i].0) < Eval(M', r[j].0) {
        if j < n {
          assert r[..n][i] == r[i] && r[..n][j] == r[j];
        } else if i < n - 1 {
          assert r[..n][i] == r[i] && r[..n][n - 1] == r[n - 1];
        }
      }
    }
  }

  /** Taking one element out of a strictly increasing sequence leaves one, whose values all differ from it. */
  lemma IncreasingSplit(M': Model, r0: Valued, x: (Term, real), p: nat)
    requires p <= |r0| && Increasing(M', r0[..p] + [x] + r0[p..])
    ensures Increasing(M', r0)
    ensures forall q :: 0 <= q < |r0| ==> Eval(M', r0[q].0) != Eval(M', x.0)
  {
    var r := r0[..p] + [x] + r0[p..];
    assert forall k :: 0 <= k < p ==> r[k] == r0[k];
    assert forall k :: p <= k < |r0| ==> r[k + 1] == r0[k];
    forall a, b | 0 <= a < b < |r0| ensures Eval(M', r0[a].0) < Eval(M', r0[b].0) {
      var a' := if a < p then a else a + 1;
      var b' := if b < p then b else b + 1;
      assert r[a'] == r0[a] && r[b'] == r0[b];
    }
    forall q | 0 <= q < |r0| ensures Eval(M', r0[q].0) != Eval(M', x.0) {
      var q' := if q < p then q else q + 1;
      assert r[q'] == r0[q] && r[p] == x;
    }
  }

  /** No two terms share a value in `M'`. */
  predicate Spread(M': Model, s: Valued) {
    forall i, j :: 0 <= i < j < |s| ==> Eval(M', s[i].0) != Eval(M', s[j].0)
  }

  /**
   * If the sorted pairs increase strictly in some model `M'`, no two of the
   * original terms share a value in `M'`.
   */
  lemma {:induction false} SortSpread(M': Model, s: Valued)
    requires KeysDistinct(s) && Increasing(M', SortByValue(s))
    ensures Spread(M', s)
  {
    if s != [] {
      var n := |s| - 1;
      var x := s[n];
      var r0 := SortByValue(s[..n]);
      KeysAvoid(s, r0);
      var p := InsertPos(x, r0);
      assert SortByValue(s) == r0[..p] + [x] + r0[p..];
      IncreasingSplit(M', r0, x, p);
      assert KeysDistinct(s[..n]);
      SortSpread(M', s[..n]);
      SpreadLast(M', s, r0);
    }
  }

  /** The last term differs from every other once it differs from each term of a permutation of the others. */
  lemma SpreadLast(M': Model, s: Valued, r0: Valued)
    requires s != [] && multiset(r0) == multiset(s[..|s| - 1])
    requires Spread(M', s[..|s| - 1])
    requires forall q :: 0 <= q < |r0| ==> Eval(M', r0[q].0) != Eval(M', s[|s| - 1].0)
    ensures Spread(M', s)
  {
    var n := |s| - 1;
    forall i, j | 0 <= i < j < |s| ensures Eval(M', s[i].0) != Eval(M', s[j].0) {
      assert s[..n][i] == s[i];
      if j < n {
        assert s[..n][j] == s[j];
      } else {
        assert s[i] in multiset(r0);
      }
    }
  }

  /**
   * The `distinct` encoding is sound: if in some model `M'` every strict
   * constraint between neighbours of the sorted arguments holds, the
   * `distinct` literal holds in `M'`.
   */
  lemma DistinctFromChain(M: Model, M': Model, args: seq<Term>)
    requires Holds(M, Distinct(args))
    requires KeysDistinct(Pairs(M, args))
    requires Chain(M', SortByValue(Pairs(M, args)))
    ensures Holds(M', Distinct(args))
  {
    var s := Pairs(M, args);
    ChainIncreasing(M', SortByValue(s));
    SortSpread(M', s);
  }
}
