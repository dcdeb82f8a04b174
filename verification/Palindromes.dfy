/** The interval tables of 算法/max_parlin_seq.cc and 算法/max_insert_parlin.cc. */
module Palindromes {
  import opened Basics

  /** What the two tables hold for the characters i, ..., j. */
  function Longest(s: string, i: nat, j: int): nat
    requires i <= j + 1 && j < |s|
    decreases j + 1 - i
  {
    if i > j then 0
    else if i == j then 1
    else if s[i] == s[j] then Longest(s, i + 1, j - 1) + 2
    else Max(Longest(s, i + 1, j), Longest(s, i, j - 1))
  }

  function Fewest(s: string, i: nat, j: int): nat
    requires i <= j + 1 && j < |s|
    decreases j + 1 - i
  {
    if i >= j then 0
    else if s[i] == s[j] then Fewest(s, i + 1, j - 1)
    else Min(Fewest(s, i + 1, j), Fewest(s, i, j - 1)) + 1
  }

  /** The table entry of row i and column j; below the diagonal the entries stay 0. */
  function LongestEntry(s: string, i: nat, j: nat): nat
    requires i < |s| && j < |s|
  {
    if i > j then 0 else Longest(s, i, j)
  }

  function FewestEntry(s: string, i: nat, j: nat): nat
    requires i < |s| && j < |s|
  {
    if i > j then 0 else Fewest(s, i, j)
  }

  method MaxParlinSeq(source: string) returns (r: int)
    requires source != ""
    ensures r == Longest(source, 0, |source| - 1) && IsLongest(source, r)
  {
    var size := |source|;
    var parlin := new int[size, size]((_, _) => 0);
    for index := 0 to size
      invariant forall i, j :: 0 <= i < size && 0 <= j < size ==> parlin[i, j] == if i == j && i < index then 1 else 0
    {
      parlin[index, index] := 1;
    }
    for index := size - 1 downto 0
      invariant forall i, j :: 0 <= i < size && 0 <= j < size && (index <= i || j <= i) ==> parlin[i, j] == LongestEntry(source, i, j)
    {
      for jdex := index + 1 to size
        invariant forall i, j :: 0 <= i < size && 0 <= j < size && (index < i || j <= i || (i == index && j < jdex)) ==>
          parlin[i, j] == LongestEntry(source, i, j)
      {
        assert parlin[index + 1, jdex - 1] == Longest(source, index + 1, jdex - 1);
        assert parlin[index + 1, jdex] == Longest(source, index + 1, jdex);
        assert parlin[index, jdex - 1] == Longest(source, index, jdex - 1);
        if source[index] == source[jdex] {
          parlin[index, jdex] := parlin[index + 1, jdex - 1] + 2;
        } else {
          parlin[index, jdex] := Max(parlin[index + 1, jdex], parlin[index, jdex - 1]);
        }
        assert parlin[index, jdex] == LongestEntry(source, index, jdex);
      }
    }
    TablesAreOptimal(source);
    return parlin[0, size - 1];
  }

  method MaxInsertParlin(source: string) returns (r: int)
    requires source != ""
    ensures r == Fewest(source, 0, |source| - 1) && IsFewest(source, r)
  {
    var size := |source|;
    var parlin := new int[size, size]((_, _) => 0);
    for index := size - 1 downto 0
      invariant forall i, j :: 0 <= i < size && 0 <= j < size && (index <= i || j <= i) ==> parlin[i, j] == FewestEntry(source, i, j)
    {
      for jdex := index + 1 to size
        invariant forall i, j :: 0 <= i < size && 0 <= j < size && (index < i || j <= i || (i == index && j < jdex)) ==>
          parlin[i, j] == FewestEntry(source, i, j)
      {
        assert parlin[index + 1, jdex - 1] == Fewest(source, index + 1, jdex - 1);
        assert parlin[index + 1, jdex] == Fewest(source, index + 1, jdex);
        assert parlin[index, jdex - 1] == Fewest(source, index, jdex - 1);
        if source[index] == source[jdex] {
          parlin[index, jdex] := parlin[index + 1, jdex - 1];
        } else {
          parlin[index, jdex] := Min(parlin[index + 1, jdex], parlin[index, jdex - 1]) + 1;
        }
        assert parlin[index, jdex] == FewestEntry(source, index, jdex);
      }
    }
    TablesAreOptimal(source);
    return parlin[0, size - 1];
  }

  // ----- the two tables against each other

  lemma {:induction false} Monotone(s: string, i: nat, j: int)
    requires i <= j < |s|
    ensures Longest(s, i + 1, j) <= Longest(s, i, j) <= Longest(s, i + 1, j) + 2
    ensures Longest(s, i, j - 1) <= Longest(s, i, j) <= Longest(s, i, j - 1) + 2
    decreases j - i
  {
    if i < j {
      Monotone(s, i + 1, j);
      Monotone(s, i, j - 1);
    }
  }

  /** The longest palindromic subsequence and the fewest insertions add up to the length. */
  lemma {:induction false} Dual(s: string, i: nat, j: int)
    requires i <= j + 1 && j < |s|
    ensures Longest(s, i, j) + Fewest(s, i, j) == j + 1 - i
    decreases j + 1 - i
  {
    if i < j {
      Dual(s, i + 1, j - 1);
      Dual(s, i + 1, j);
      Dual(s, i, j - 1);
    }
  }

  // ----- the longest palindromic subsequence

  predicate Increasing(f: seq<int>, lo: int, hi: int) {
    (forall k :: 0 <= k < |f| ==> lo <= f[k] <= hi) && (forall k, l :: 0 <= k < l < |f| ==> f[k] < f[l])
  }

  /** The characters at the increasing positions `f` between i and j read the same backwards. */
  ghost predicate PalindromeAt(s: string, i: nat, j: int, f: seq<int>)
    requires i <= j + 1 && j < |s|
  {
    Increasing(f, i, j) && forall k, l :: 0 <= k < |f| && 0 <= l < |f| && k + l == |f| - 1 ==> s[f[k]] == s[f[l]]
  }

  lemma {:induction false} NoneLonger(s: string, i: nat, j: int, f: seq<int>)
    requires i <= j + 1 && j < |s| && PalindromeAt(s, i, j, f)
    ensures |f| <= Longest(s, i, j)
    decreases j + 1 - i
  {
    if f != [] {
      var n := |f|;
      assert i <= f[0] <= j;
      Monotone(s, i, j);
      if f[0] > i {
        NoneLonger(s, i + 1, j, f);
      } else if f[n - 1] < j {
        NoneLonger(s, i, j - 1, f);
      } else if i < j {
        var g := f[1..n - 1];
        forall k, l | 0 <= k < |g| && 0 <= l < |g| && k + l == |g| - 1
          ensures s[g[k]] == s[g[l]]
        {
          assert s[f[k + 1]] == s[f[l + 1]];
        }
        NoneLonger(s, i + 1, j - 1, g);
      }
    }
  }

  lemma {:induction false} BothEnds(s: string, i: nat, j: int, g: seq<int>)
    requires i < j < |s| && s[i] == s[j] && PalindromeAt(s, i + 1, j - 1, g)
    ensures PalindromeAt(s, i, j, [i] + g + [j])
  {
    var f := [i] + g + [j];
    forall k, l | 0 <= k < |f| && 0 <= l < |f| && k + l == |f| - 1
      ensures s[f[k]] == s[f[l]]
    {
      if 0 < k < |f| - 1 {
        assert s[g[k - 1]] == s[g[l - 1]];
      }
    }
  }

  lemma {:induction false} LongestExists(s: string, i: nat, j: int) returns (f: seq<int>)
    requires i <= j + 1 && j < |s|
    ensures PalindromeAt(s, i, j, f) && |f| == Longest(s, i, j)
    decreases j + 1 - i
  {
    if i > j {
      f := [];
    } else if i == j {
      f := [i];
    } else if s[i] == s[j] {
      var g := LongestExists(s, i + 1, j - 1);
      f := [i] + g + [j];
      BothEnds(s, i, j, g);
    } else if Longest(s, i + 1, j) >= Longest(s, i, j - 1) {
      f := LongestExists(s, i + 1, j);
    } else {
      f := LongestExists(s, i, j - 1);
    }
  }

  // ----- the fewest insertions

  ghost predicate IsPalindrome(p: string) {
    forall k, l :: 0 <= k < |p| && 0 <= l < |p| && k + l == |p| - 1 ==> p[k] == p[l]
  }

  /** `p` is the text i, ..., j with further characters inserted; `g` says where the old ones went. */
  ghost predicate Inserted(s: string, i: nat, j: int, p: string, g: seq<int>)
    requires i <= j + 1 && j < |s|
  {
    |g| == j + 1 - i && Increasing(g, 0, |p| - 1) && forall k :: 0 <= k < |g| ==> p[g[k]] == s[i + k]
  }

  lemma {:induction false} RoomFor(g: seq<int>, lo: int, hi: int)
    requires Increasing(g, lo, hi) && g != []
    ensures g[|g| - 1] >= lo + |g| - 1
  {
    if |g| > 1 {
      RoomFor(g[..|g| - 1], lo, hi);
    }
  }

  function Shifted(g: seq<int>, d: int): seq<int> {
    seq(|g|, k requires 0 <= k < |g| => g[k] + d)
  }

  /** Dropping both ends of `p`, and the characters of the text found there. */
  lemma {:induction false} Strip(s: string, i: nat, j: int, p: string, g: seq<int>, a: nat, b: nat)
    requires i < j < |s| && Inserted(s, i, j, p, g)
    requires a == (if g[0] == 0 then 1 else 0) && b == (if g[|g| - 1] == |p| - 1 then 1 else 0)
    ensures |p| >= |g| && Inserted(s, i + a, j - b, p[1..|p| - 1], Shifted(g[a..|g| - b], -1))
  {
    RoomFor(g, 0, |p| - 1);
    var q, h := p[1..|p| - 1], Shifted(g[a..|g| - b], -1);
    forall k | 0 <= k < |h|
      ensures h[k] == g[a + k] - 1 && 0 <= h[k] < |q| && q[h[k]] == s[i + a + k]
    {
      assert p[g[a + k]] == s[i + (a + k)];
    }
  }

  /** Two further ends around `q`, which may stand for the neighbouring characters of the text. */
  lemma {:induction false} Surround(s: string, i: nat, j: int, q: string, h: seq<int>, c: char, left: bool, right: bool)
    requires i <= j < |s| && (left ==> s[i] == c) && (right ==> s[j] == c) && (left && right ==> i < j)
    requires var a, b := if left then 1 else 0, if right then 1 else 0; Inserted(s, i + a, j - b, q, h)
    ensures Inserted(s, i, j, [c] + q + [c], (if left then [0] else []) + Shifted(h, 1) + (if right then [|q| + 1] else []))
  {
    var p, l, r := [c] + q + [c], if left then [0] else [], if right then [|q| + 1] else [];
    var g := l + Shifted(h, 1) + r;
    forall k | 0 <= k < |g|
      ensures g[k] == if k < |l| then 0 else if k < |l| + |h| then h[k - |l|] + 1 else |q| + 1
    {
    }
    forall k | 0 <= k < |g|
      ensures p[g[k]] == s[i + k]
    {
      if |l| <= k < |l| + |h| {
        assert p[h[k - |l|] + 1] == q[h[k - |l|]];
      }
    }
  }

  lemma InnerPalindrome(p: string)
    requires IsPalindrome(p) && |p| >= 2
    ensures IsPalindrome(p[1..|p| - 1]) && p[0] == p[|p| - 1]
  {
    var inner := p[1..|p| - 1];
    forall k, l | 0 <= k < |inner| && 0 <= l < |inner| && k + l == |inner| - 1
      ensures inner[k] == inner[l]
    {
      assert p[k + 1] == p[l + 1];
    }
  }

  /** Leaving out a character at one end saves at most one insertion, equal ones at both ends none. */
  lemma {:induction false} FewestStep(s: string, i: nat, j: int, a: nat, b: nat)
    requires i < j < |s| && a <= 1 && b <= 1 && (a == b == 1 ==> s[i] == s[j])
    ensures Fewest(s, i, j) <= Fewest(s, i + a, j - b) + 2 - a - b
  {
    if a == 0 || b == 0 {
      Monotone(s, i, j);
      Dual(s, i, j);
      Dual(s, i + a, j - b);
    }
  }

  /** One step inwards: how many characters of the text, at each end, sit at the ends of `p`. */
  lemma Peel(s: string, i: nat, j: int, p: string, g: seq<int>) returns (a: nat, b: nat, inner: string, h: seq<int>)
    requires i < j < |s| && IsPalindrome(p) && Inserted(s, i, j, p, g)
    ensures a <= 1 && b <= 1 && |p| == |inner| + 2 && IsPalindrome(inner) && Inserted(s, i + a, j - b, inner, h)
    ensures a == b == 1 ==> s[i] == s[j]
  {
    a, b := if g[0] == 0 then 1 else 0, if g[|g| - 1] == |p| - 1 then 1 else 0;
    Strip(s, i, j, p, g, a, b);
    InnerPalindrome(p);
    inner, h := p[1..|p| - 1], Shifted(g[a..|g| - b], -1);
  }

  lemma {:induction false} NoneFewer(s: string, i: nat, j: int, p: string, g: seq<int>)
    requires i <= j + 1 && j < |s| && IsPalindrome(p) && Inserted(s, i, j, p, g)
    ensures |p| - (j + 1 - i) >= Fewest(s, i, j)
    decreases |p|
  {
    if i < j {
      var a, b, inner, h := Peel(s, i, j, p, g);
      FewestStep(s, i, j, a, b);
      NoneFewer(s, i + a, j - b, inner, h);
    } else if i == j {
      RoomFor(g, 0, |p| - 1);
    }
  }

  /** A palindrome stays one between two equal characters, and its positions move up by one. */
  lemma Wrap(p: string, c: char)
    requires IsPalindrome(p)
    ensures IsPalindrome([c] + p + [c])
  {
    var q := [c] + p + [c];
    forall k, l | 0 <= k < |q| && 0 <= l < |q| && k + l == |q| - 1
      ensures q[k] == q[l]
    {
      if 0 < k < |q| - 1 {
        assert p[k - 1] == p[l - 1];
      }
    }
  }

  lemma {:induction false} FewestExists(s: string, i: nat, j: int) returns (p: string, g: seq<int>)
    requires i <= j + 1 && j < |s|
    ensures IsPalindrome(p) && Inserted(s, i, j, p, g) && |p| - (j + 1 - i) == Fewest(s, i, j)
    decreases j + 1 - i
  {
    if i > j {
      p, g := "", [];
    } else if i == j {
      p, g := [s[i]], [0];
    } else {
      var left := s[i] == s[j] || Fewest(s, i + 1, j) <= Fewest(s, i, j - 1);
      var right := s[i] == s[j] || !left;
      var c := if left then s[i] else s[j];
      var q, h := FewestExists(s, if left then i + 1 else i, if right then j - 1 else j);
      Wrap(q, c);
      Surround(s, i, j, q, h, c, left, right);
      p, g := [c] + q + [c], (if left then [0] else []) + Shifted(h, 1) + (if right then [|q| + 1] else []);
    }
  }

  // ----- whole texts

  ghost predicate PalindromicSubsequence(s: string, f: seq<int>)
    requires s != ""
  {
    PalindromeAt(s, 0, |s| - 1, f)
  }

  /** `r` is the length of a longest palindromic subsequence. */
  ghost predicate IsLongest(s: string, r: int)
    requires s != ""
  {
    && (exists f :: PalindromicSubsequence(s, f) && |f| == r)
    && (forall f :: PalindromicSubsequence(s, f) ==> |f| <= r)
  }

  ghost predicate Completion(s: string, p: string, g: seq<int>)
    requires s != ""
  {
    IsPalindrome(p) && Inserted(s, 0, |s| - 1, p, g)
  }

  /** `r` is the least number of insertions that make the text a palindrome. */
  ghost predicate IsFewest(s: string, r: int)
    requires s != ""
  {
    && (exists p, g :: Completion(s, p, g) && |p| == |s| + r)
    && (forall p, g :: Completion(s, p, g) ==> |p| >= |s| + r)
  }

  /** Both answers are optimal, and together they make up the length of the text. */
  lemma {:induction false} TablesAreOptimal(s: string)
    requires s != ""
    ensures var longest, fewest := Longest(s, 0, |s| - 1), Fewest(s, 0, |s| - 1);
      IsLongest(s, longest) && IsFewest(s, fewest) && longest + fewest == |s|
  {
    var n := |s|;
    var f := LongestExists(s, 0, n - 1);
    assert PalindromicSubsequence(s, f);
    var p, g := FewestExists(s, 0, n - 1);
    assert Completion(s, p, g);
    forall f | PalindromicSubsequence(s, f)
      ensures |f| <= Longest(s, 0, n - 1)
    {
      NoneLonger(s, 0, n - 1, f);
    }
    forall p, g | Completion(s, p, g)
      ensures |p| >= n + Fewest(s, 0, n - 1)
    {
      NoneFewer(s, 0, n - 1, p, g);
    }
    Dual(s, 0, n - 1);
  }
}
