/** The table of 算法/01Package.cc for the 0-1 knapsack. */
module Knapsack {
  import opened Basics

  /** The entry of row i and column w. Column 0 is never written: nothing is packed into no room. */
  function Entry(wt: seq<int>, val: seq<int>, i: nat, w: nat): int
    requires i <= |wt| && i <= |val|
  {
    if i == 0 || w == 0 then 0
    else if w < wt[i - 1] then Entry(wt, val, i - 1, w)
    else Max(Entry(wt, val, i - 1, w - wt[i - 1]) + val[i - 1], Entry(wt, val, i - 1, w))
  }

  /** None: a negative weight makes the loops read behind the end of a row. */
  method Knapsack(W: nat, N: nat, wt: seq<int>, val: seq<int>) returns (r: Option<int>)
    requires N <= |wt| && N <= |val|
    ensures r.None? <==> W > 0 && exists i :: 0 <= i < N && wt[i] < 0
    ensures r.Some? ==> r.value == Entry(wt, val, N, W) && IsBest(wt, val, N, W, r.value, true)
    ensures NoneMissed(wt, N, W) && (forall i :: 0 <= i < N ==> wt[i] >= 0) ==> r.Some? && IsBest(wt, val, N, W, r.value, false)
  {
    var dp := new int[N + 1, W + 1]((_, _) => 0);
    for i := 1 to N + 1
      invariant forall k, w :: 0 <= k < i && 0 <= w <= W ==> dp[k, w] == Entry(wt, val, k, w)
      invariant forall k :: i <= k <= N ==> dp[k, 0] == 0
      invariant W > 0 ==> forall k :: 0 <= k < i - 1 ==> wt[k] >= 0
    {
      for w := 1 to W + 1
        invariant forall k, v :: 0 <= k < i && 0 <= v <= W ==> dp[k, v] == Entry(wt, val, k, v)
        invariant forall k :: i <= k <= N ==> dp[k, 0] == 0
        invariant forall v :: 0 <= v < w ==> dp[i, v] == Entry(wt, val, i, v)
        invariant w == 1 || w - 1 - wt[i - 1] <= W
      {
        if w - wt[i - 1] < 0 {
          dp[i, w] := dp[i - 1, w];
        } else if w - wt[i - 1] > W {
          return None;
        } else {
          dp[i, w] := Max(dp[i - 1, w - wt[i - 1]] + val[i - 1], dp[i - 1, w]);
        }
      }
    }
    EntryIsBestConsidered(wt, val, N, W);
    if NoneMissed(wt, N, W) && forall i :: 0 <= i < N ==> wt[i] >= 0 {
      EntryIsBest(wt, val, N, W);
    }
    return Some(dp[N, W]);
  }

  // ----- choices of items

  function Weight(wt: seq<int>, choice: seq<bool>): int
    requires |choice| <= |wt|
  {
    var n := |choice|;
    if n == 0 then 0 else Weight(wt, choice[..n - 1]) + if choice[n - 1] then wt[n - 1] else 0
  }

  function Value(val: seq<int>, choice: seq<bool>): int
    requires |choice| <= |val|
  {
    var n := |choice|;
    if n == 0 then 0 else Value(val, choice[..n - 1]) + if choice[n - 1] then val[n - 1] else 0
  }

  /** The choices the table considers, the last item first: an item needs its weight in room, and
      even a weightless one needs some room to be left. */
  predicate Considered(wt: seq<int>, choice: seq<bool>, w: nat)
    requires |choice| <= |wt|
  {
    var n := |choice|;
    n == 0 ||
    if choice[n - 1] then 0 < w && wt[n - 1] <= w && Considered(wt, choice[..n - 1], w - wt[n - 1])
    else Considered(wt, choice[..n - 1], w)
  }

  /** `best` is the largest value of a choice that satisfies `allowed`. */
  ghost predicate IsBest(wt: seq<int>, val: seq<int>, n: nat, w: nat, best: int, considered: bool)
    requires n <= |wt| && n <= |val|
  {
    && (exists c :: Allowed(wt, c, n, w, considered) && Value(val, c) == best)
    && (forall c :: Allowed(wt, c, n, w, considered) ==> Value(val, c) <= best)
  }

  predicate Allowed(wt: seq<int>, c: seq<bool>, n: nat, w: nat, considered: bool)
    requires n <= |wt|
  {
    |c| == n && if considered then Considered(wt, c, w) else Weight(wt, c) <= w
  }

  /** For all weights, zero included: the table holds the best value among the choices it considers. */
  lemma {:induction false} EntryIsBestConsidered(wt: seq<int>, val: seq<int>, n: nat, w: nat)
    requires n <= |wt| && n <= |val|
    ensures IsBest(wt, val, n, w, Entry(wt, val, n, w), true)
    decreases n
  {
    var best := Entry(wt, val, n, w);
    var c := BestChoice(wt, val, n, w);
    forall c | Allowed(wt, c, n, w, true)
      ensures Value(val, c) <= best
    {
      NoneBetter(wt, val, w, c);
    }
  }

  lemma {:induction false} BestChoice(wt: seq<int>, val: seq<int>, n: nat, w: nat) returns (c: seq<bool>)
    requires n <= |wt| && n <= |val|
    ensures Allowed(wt, c, n, w, true) && Value(val, c) == Entry(wt, val, n, w)
    decreases n
  {
    if n == 0 {
      c := [];
    } else {
      var take := w > 0 && wt[n - 1] <= w && Entry(wt, val, n - 1, w - wt[n - 1]) + val[n - 1] > Entry(wt, val, n - 1, w);
      var d := BestChoice(wt, val, n - 1, if take then w - wt[n - 1] else w);
      c := d + [take];
      assert c[..n - 1] == d;
    }
  }

  lemma {:induction false} NoneBetter(wt: seq<int>, val: seq<int>, w: nat, c: seq<bool>)
    requires |c| <= |wt| && |c| <= |val| && Considered(wt, c, w)
    ensures Value(val, c) <= Entry(wt, val, |c|, w)
    decreases |c|
  {
    var n := |c|;
    if n > 0 {
      NoneBetter(wt, val, if c[n - 1] then w - wt[n - 1] else w, c[..n - 1]);
    }
  }

  // ----- which choices the table misses

  /** No item of the choice `c` comes before item `k + 1`. */
  predicate OnlyAfter(c: seq<bool>, k: int) {
    forall i :: 0 <= i < |c| && i <= k ==> !c[i]
  }

  ghost predicate Misses(wt: seq<int>, n: nat, w: nat, k: nat, c: seq<bool>)
    requires n <= |wt|
  {
    k < n && wt[k] == 0 && |c| == n && OnlyAfter(c, k) && Weight(wt, c) == w
  }

  /** There is no weightless item such that items after it can fill the room exactly. */
  ghost predicate NoneMissed(wt: seq<int>, n: nat, w: nat)
    requires n <= |wt|
  {
    forall k, c :: !Misses(wt, n, w, k, c)
  }

  lemma {:induction false} ConsideredFits(wt: seq<int>, w: nat, c: seq<bool>)
    requires |c| <= |wt| && Considered(wt, c, w)
    ensures Weight(wt, c) <= w
    decreases |c|
  {
    var n := |c|;
    if n > 0 {
      ConsideredFits(wt, if c[n - 1] then w - wt[n - 1] else w, c[..n - 1]);
    }
  }

  lemma {:induction false} EmptyChoice(wt: seq<int>, n: nat) returns (c: seq<bool>)
    requires n <= |wt|
    ensures |c| == n && OnlyAfter(c, n) && Weight(wt, c) == 0
    decreases n
  {
    if n == 0 {
      c := [];
    } else {
      var d := EmptyChoice(wt, n - 1);
      c := d + [false];
      assert c[..n - 1] == d;
    }
  }

  lemma {:induction false} WeightsAddUp(wt: seq<int>, c: seq<bool>)
    requires |c| <= |wt| && forall i :: 0 <= i < |c| ==> wt[i] >= 0
    ensures Weight(wt, c) >= 0
    decreases |c|
  {
    if c != [] {
      WeightsAddUp(wt, c[..|c| - 1]);
    }
  }

  /** A choice that fits but is not considered has a weightless item behind which no room is left. */
  lemma {:induction false} WhatIsMissed(wt: seq<int>, w: nat, c: seq<bool>) returns (k: nat, d: seq<bool>)
    requires |c| <= |wt| && (forall i :: 0 <= i < |c| ==> wt[i] >= 0)
    requires Weight(wt, c) <= w && !Considered(wt, c, w)
    ensures Misses(wt, |c|, w, k, d)
    decreases |c|
  {
    var n := |c|;
    WeightsAddUp(wt, c[..n - 1]);
    if c[n - 1] && w == 0 {
      k := n - 1;
      d := EmptyChoice(wt, n);
    } else {
      var e;
      k, e := WhatIsMissed(wt, if c[n - 1] then w - wt[n - 1] else w, c[..n - 1]);
      d := e + [c[n - 1]];
      assert d[..n - 1] == e;
    }
  }

  /** When the items after `k` fill the room, no choice with item `k` among them is considered. */
  lemma {:induction false} NoRoomLeft(wt: seq<int>, w: nat, k: nat, c: seq<bool>)
    requires k < |c| <= |wt| && OnlyAfter(c, k) && Weight(wt, c) == w
    ensures !Considered(wt, c[k := true], w)
    decreases |c|
  {
    var n, d := |c|, c[k := true];
    if k == n - 1 {
      EmptyWeighsNothing(wt, c);
    } else {
      assert d[..n - 1] == c[..n - 1][k := true];
      if c[n - 1] {
        if wt[n - 1] <= w {
          NoRoomLeft(wt, w - wt[n - 1], k, c[..n - 1]);
        }
      } else {
        NoRoomLeft(wt, w, k, c[..n - 1]);
      }
    }
  }

  lemma {:induction false} EmptyWeighsNothing(wt: seq<int>, c: seq<bool>)
    requires |c| <= |wt| && forall i :: 0 <= i < |c| ==> !c[i]
    ensures Weight(wt, c) == 0
    decreases |c|
  {
    if c != [] {
      EmptyWeighsNothing(wt, c[..|c| - 1]);
    }
  }

  lemma {:induction false} WeightlessAdded(wt: seq<int>, k: nat, c: seq<bool>)
    requires k < |c| <= |wt| && wt[k] == 0
    ensures Weight(wt, c[k := true]) == Weight(wt, c)
    decreases |c|
  {
    var n := |c|;
    if k < n - 1 {
      WeightlessAdded(wt, k, c[..n - 1]);
      assert c[k := true][..n - 1] == c[..n - 1][k := true];
    } else {
      assert c[k := true][..n - 1] == c[..n - 1];
    }
  }

  /** Values for which `c` is the one best choice. */
  function Favouring(c: seq<bool>, m: nat): seq<int> {
    seq(m, i requires 0 <= i => if i < |c| && c[i] then 1 else -1)
  }

  lemma {:induction false} FavouredIsBest(c: seq<bool>, m: nat, n: nat, d: seq<bool>)
    requires n <= |c| <= m && |d| == n
    ensures var val := Favouring(c, m);
      if d == c[..n] then Value(val, d) == Value(val, c[..n]) else Value(val, d) < Value(val, c[..n])
    decreases n
  {
    if n > 0 {
      FavouredIsBest(c, m, n - 1, d[..n - 1]);
      assert c[..n][..n - 1] == c[..n - 1];
      assert d == d[..n - 1] + [d[n - 1]] && c[..n] == c[..n - 1] + [c[n - 1]];
    }
  }

  // ----- where the table is right

  lemma EntryIsBest(wt: seq<int>, val: seq<int>, n: nat, w: nat)
    requires n <= |wt| && n <= |val| && (forall i :: 0 <= i < n ==> wt[i] >= 0) && NoneMissed(wt, n, w)
    ensures IsBest(wt, val, n, w, Entry(wt, val, n, w), false)
  {
    EntryIsBestConsidered(wt, val, n, w);
    forall c | |c| == n
      ensures Allowed(wt, c, n, w, true) <==> Allowed(wt, c, n, w, false)
    {
      if Considered(wt, c, w) {
        ConsideredFits(wt, w, c);
      } else if Weight(wt, c) <= w {
        var k, d := WhatIsMissed(wt, w, c);
      }
    }
    var c :| Allowed(wt, c, n, w, true) && Value(val, c) == Entry(wt, val, n, w);
    assert Allowed(wt, c, n, w, false);
  }

  /** The table is right for one capacity, whatever the values are. */
  ghost predicate Right(wt: seq<int>, n: nat, w: nat)
    requires n <= |wt|
  {
    forall val: seq<int> :: |val| == n ==> IsBest(wt, val, n, w, Entry(wt, val, n, w), false)
  }

  lemma {:induction false} MissedIsBetter(wt: seq<int>, n: nat, w: nat, k: nat, c: seq<bool>) returns (val: seq<int>)
    requires n <= |wt| && Misses(wt, n, w, k, c)
    ensures |val| == n && !IsBest(wt, val, n, w, Entry(wt, val, n, w), false)
  {
    var d := c[k := true];
    val := Favouring(d, n);
    WeightlessAdded(wt, k, c);
    NoRoomLeft(wt, w, k, c);
    var e := BestChoice(wt, val, n, w);
    FavouredIsBest(d, n, n, e);
    assert d[..n] == d;
    assert Allowed(wt, d, n, w, false);
  }

  /** Exactly when: the items behind a weightless item must not be able to fill the capacity. */
  lemma RightIff(wt: seq<int>, n: nat, w: nat)
    requires n <= |wt| && forall i :: 0 <= i < n ==> wt[i] >= 0
    ensures Right(wt, n, w) <==> NoneMissed(wt, n, w)
  {
    if NoneMissed(wt, n, w) {
      forall val: seq<int> | |val| == n
        ensures IsBest(wt, val, n, w, Entry(wt, val, n, w), false)
      {
        EntryIsBest(wt, val, n, w);
      }
    } else {
      var k: nat, c :| Misses(wt, n, w, k, c);
      var val := MissedIsBetter(wt, n, w, k, c);
    }
  }

  /** It is right for every capacity exactly if no item is weightless. */
  lemma RightIffNoWeightlessItem(wt: seq<int>, n: nat)
    requires n <= |wt| && forall i :: 0 <= i < n ==> wt[i] >= 0
    ensures (forall w: nat :: Right(wt, n, w)) <==> forall i :: 0 <= i < n ==> wt[i] >= 1
  {
    if forall i :: 0 <= i < n ==> wt[i] >= 1 {
      forall w: nat
        ensures Right(wt, n, w)
      {
        RightIff(wt, n, w);
      }
    } else {
      var k :| 0 <= k < n && wt[k] == 0;
      var c := EmptyChoice(wt, n);
      assert Misses(wt, n, 0, k, c);
      RightIff(wt, n, 0);
    }
  }
}
