/** 算法/Permutations.cc: backtracking over a global partial permutation. */
module Permutations {
  import opened Basics

  /** What a call appends to `results` when `tmp` is the partial permutation, in order. */
  function Completions(arr: seq<int>, tmp: seq<int>): seq<seq<int>>
    requires |tmp| <= |arr|
    decreases |arr| - |tmp|, |arr| + 1
  {
    if |tmp| == |arr| then [tmp] else CompletionsFrom(arr, tmp, 0)
  }

  function CompletionsFrom(arr: seq<int>, tmp: seq<int>, index: nat): seq<seq<int>>
    requires |tmp| < |arr| && index <= |arr|
    decreases |arr| - |tmp|, |arr| - index
  {
    if index == |arr| then [] else
      (if arr[index] in tmp then [] else Completions(arr, tmp + [arr[index]])) + CompletionsFrom(arr, tmp, index + 1)
  }

  class Permuter {
    var tmpSaver: seq<int>
    var results: seq<seq<int>>

    constructor ()
      ensures tmpSaver == [] && results == []
    {
      tmpSaver, results := [], [];
    }

    /** `arr` holds the first `count` elements of the source's array. */
    method Permutation(arr: seq<int>, count: nat)
      requires count == |arr| && |tmpSaver| <= count
      modifies this
      ensures tmpSaver == old(tmpSaver)
      ensures results == old(results) + Completions(arr, tmpSaver)
      decreases count - |tmpSaver|
    {
      if |tmpSaver| == count {
        results := results + [tmpSaver];
        return;
      }
      ghost var found: seq<seq<int>> := [];
      for index := 0 to count
        invariant tmpSaver == old(tmpSaver)
        invariant results == old(results) + found
        invariant Completions(arr, tmpSaver) == found + CompletionsFrom(arr, tmpSaver, index)
      {
        ghost var here := if arr[index] in tmpSaver then [] else Completions(arr, tmpSaver + [arr[index]]);
        Associate(found, here, CompletionsFrom(arr, tmpSaver, index + 1));
        Associate(old(results), found, here);
        found := found + here;
        if arr[index] in tmpSaver {
          continue;
        }
        tmpSaver := tmpSaver + [arr[index]];
        Permutation(arr, count);
        tmpSaver := tmpSaver[..|tmpSaver| - 1];
      }
    }
  }

  lemma {:induction false} DistinctCardinality(s: seq<int>)
    ensures |ToSet(s)| <= |s|
    ensures |ToSet(s)| == |s| <==> NoRepeats(s)
    ensures NoRepeats(s) ==> multiset(s) == multiset(ToSet(s))
  {
    if s != [] {
      var n := |s| - 1;
      var t := s[..n];
      DistinctCardinality(t);
      assert s == t + [s[n]];
      if s[n] in t {
        assert ToSet(s) == ToSet(t);
        var i :| 0 <= i < n && t[i] == s[n];
        assert s[i] == s[n];
      } else {
        assert ToSet(s) == ToSet(t) + {s[n]};
      }
    }
  }

  /** Everything after the first `k` elements comes from `arr` and is new where it stands. */
  ghost predicate NewFrom(arr: seq<int>, p: seq<int>, k: nat) {
    |p| == |arr| && forall i :: k <= i < |p| ==> p[i] in arr && p[i] !in p[..i]
  }

  lemma {:induction false} CompletionsAreAll(arr: seq<int>, tmp: seq<int>, p: seq<int>)
    requires |tmp| <= |arr|
    ensures p in Completions(arr, tmp) <==> tmp <= p && NewFrom(arr, p, |tmp|)
    decreases |arr| - |tmp|, |arr| + 1
  {
    if |tmp| == |arr| {
      assert tmp <= p && |p| == |arr| ==> p == tmp;
    } else {
      CompletionsFromAreAll(arr, tmp, 0, p);
    }
  }

  lemma {:induction false} CompletionsFromAreAll(arr: seq<int>, tmp: seq<int>, index: nat, p: seq<int>)
    requires |tmp| < |arr| && index <= |arr|
    ensures p in CompletionsFrom(arr, tmp, index) <==> tmp <= p && NewFrom(arr, p, |tmp|) && p[|tmp|] in arr[index..]
    decreases |arr| - |tmp|, |arr| - index
  {
    if index < |arr| {
      CompletionsFromAreAll(arr, tmp, index + 1, p);
      assert arr[index..] == [arr[index]] + arr[index + 1..];
      var next := tmp + [arr[index]];
      if arr[index] in tmp {
        assert tmp <= p && |p| == |arr| ==> p[..|tmp|] == tmp;
      } else {
        CompletionsAreAll(arr, next, p);
        assert next <= p <==> tmp <= p && |p| > |tmp| && p[|tmp|] == arr[index];
        assert tmp <= p && |p| == |arr| ==> p[..|tmp|] == tmp;
      }
    }
  }

  /** `p` comes before `q`: at the first difference it takes the element of the smaller index. */
  ghost predicate Before(arr: seq<int>, p: seq<int>, q: seq<int>) {
    exists k, a, b :: DiffersAt(arr, p, q, k, a, b)
  }

  predicate DiffersAt(arr: seq<int>, p: seq<int>, q: seq<int>, k: nat, a: nat, b: nat) {
    k < |p| && k < |q| && p[..k] == q[..k] && a < b < |arr| && p[k] == arr[a] && q[k] == arr[b]
  }

  ghost predicate Ascending(arr: seq<int>, ps: seq<seq<int>>) {
    forall i, j :: 0 <= i < j < |ps| ==> Before(arr, ps[i], ps[j])
  }

  lemma {:induction false} CompletionsAscend(arr: seq<int>, tmp: seq<int>)
    requires |tmp| <= |arr|
    ensures Ascending(arr, Completions(arr, tmp))
    decreases |arr| - |tmp|, |arr| + 1
  {
    if |tmp| < |arr| {
      CompletionsFromAscend(arr, tmp, 0);
    }
  }

  lemma {:induction false} CompletionsFromAscend(arr: seq<int>, tmp: seq<int>, index: nat)
    requires |tmp| < |arr| && index <= |arr|
    ensures Ascending(arr, CompletionsFrom(arr, tmp, index))
    decreases |arr| - |tmp|, |arr| - index
  {
    if index < |arr| {
      CompletionsFromAscend(arr, tmp, index + 1);
      if arr[index] !in tmp {
        var next := tmp + [arr[index]];
        CompletionsAscend(arr, next);
        var xs, ys := Completions(arr, next), CompletionsFrom(arr, tmp, index + 1);
        forall i, j | 0 <= i < |xs| && 0 <= j < |ys|
          ensures Before(arr, xs[i], ys[j])
        {
          CompletionsAreAll(arr, next, xs[i]);
          CompletionsFromAreAll(arr, tmp, index + 1, ys[j]);
          var b :| index + 1 <= b < |arr| && arr[b] == ys[j][|tmp|];
          assert DiffersAt(arr, xs[i], ys[j], |tmp|, index, b);
        }
        AscendingSum(arr, xs, ys);
      }
    }
  }

  lemma AscendingSum(arr: seq<int>, xs: seq<seq<int>>, ys: seq<seq<int>>)
    requires Ascending(arr, xs) && Ascending(arr, ys)
    requires forall i, j :: 0 <= i < |xs| && 0 <= j < |ys| ==> Before(arr, xs[i], ys[j])
    ensures Ascending(arr, xs + ys)
  {
  }

  /** From an empty partial permutation: every permutation of distinct elements once, in the
      lexicographic order of the indices; nothing at all once an element repeats. */
  lemma PermutationsAreComplete(arr: seq<int>)
    ensures NoRepeats(arr) ==>
      && (forall p :: p in Completions(arr, []) <==> multiset(p) == multiset(arr))
      && Ascending(arr, Completions(arr, []))
      && (forall i, j :: 0 <= i < j < |Completions(arr, [])| ==> Completions(arr, [])[i] != Completions(arr, [])[j])
    ensures !NoRepeats(arr) ==> Completions(arr, []) == []
  {
    var all := Completions(arr, []);
    forall p
      ensures p in all <==> NoRepeats(arr) && multiset(p) == multiset(arr)
    {
      CompletionsAreAll(arr, [], p);
      NewIsPermutation(arr, p);
    }
    CompletionsAscend(arr, []);
    assert all != [] ==> all[0] in all;
    if NoRepeats(arr) {
      forall i, j | 0 <= i < j < |all|
        ensures all[i] != all[j]
      {
        assert Before(arr, all[i], all[j]);
      }
    }
  }

  lemma {:induction false} NewIsPermutation(arr: seq<int>, p: seq<int>)
    ensures NewFrom(arr, p, 0) <==> NoRepeats(arr) && multiset(p) == multiset(arr)
  {
    DistinctCardinality(arr);
    DistinctCardinality(p);
    if NewFrom(arr, p, 0) {
      forall i, j | 0 <= i < j < |p|
        ensures p[i] != p[j]
      {
        assert p[i] in p[..j];
      }
      assert ToSet(p) <= ToSet(arr);
      SubsetSize(ToSet(p), ToSet(arr));
    }
    if NoRepeats(arr) && multiset(p) == multiset(arr) {
      assert |p| == |multiset(p)| == |multiset(arr)| == |arr|;
      assert forall x :: x in p <==> x in multiset(p);
      assert forall x :: x in arr <==> x in multiset(arr);
      assert ToSet(p) == ToSet(arr);
    }
  }
}
