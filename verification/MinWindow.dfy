/** 算法/min_substr.cc: the shortest substring that contains every target character often enough. */
module MinWindow {
  import opened Basics

  // ----- what the search is for

  /** source[lo..hi] contains each target character with at least its multiplicity. */
  ghost predicate Covering(source: string, target: string, lo: int, hi: int) {
    0 <= lo <= hi <= |source| && multiset(target) <= multiset(source[lo..hi])
  }

  /** A window is better than another if it is shorter, or as short and not further right. */
  predicate Beats(start: int, len: int, lo: int, hi: int) {
    len < hi - lo || (len == hi - lo && start <= lo)
  }

  ghost predicate LeftmostShortest(source: string, target: string, start: int, len: int) {
    && Covering(source, target, start, start + len)
    && forall lo, hi :: Covering(source, target, lo, hi) ==> Beats(start, len, lo, hi)
  }

  const INT_MAX: int := 0x7fff_ffff

  /** If anything covers, then something shorter than INT_MAX, the length the search starts from. */
  ghost predicate Countable(source: string, target: string) {
    (exists lo, hi :: Covering(source, target, lo, hi)) ==> exists lo, hi :: Covering(source, target, lo, hi) && hi - lo < INT_MAX
  }

  /** No window of a text that an int can count is too long. */
  lemma {:induction false} ShortTextIsCountable(source: string, target: string)
    ensures |source| < 0x7fff_ffff ==> Countable(source, target)
  {
    if |source| < 0x7fff_ffff {
      forall lo, hi | Covering(source, target, lo, hi)
        ensures hi - lo < INT_MAX
      {
      }
    }
  }

  /** The shortest covering substring, the leftmost among equals; empty exactly if there is none. */
  ghost predicate IsMinimal(source: string, target: string, result: string) {
    if result == "" then forall lo, hi :: !Covering(source, target, lo, hi)
    else exists start :: LeftmostShortest(source, target, start, |result|) && result == source[start..start + |result|]
  }

  // ----- occurrences

  function Occurs(s: string, lo: int, hi: int, c: char): nat
    requires 0 <= lo && hi <= |s|
    decreases hi - lo
  {
    if lo >= hi then 0 else Occurs(s, lo, hi - 1, c) + if s[hi - 1] == c then 1 else 0
  }

  lemma {:induction false} OccursCounts(s: string, lo: nat, hi: nat, c: char)
    requires lo <= hi <= |s|
    ensures Occurs(s, lo, hi, c) == multiset(s[lo..hi])[c]
    decreases hi - lo
  {
    if lo < hi {
      OccursCounts(s, lo, hi - 1, c);
      assert s[lo..hi] == s[lo..hi - 1] + [s[hi - 1]];
    }
  }

  lemma {:induction false} OccursFirst(s: string, lo: nat, hi: nat, c: char)
    requires lo < hi <= |s|
    ensures Occurs(s, lo, hi, c) == Occurs(s, lo + 1, hi, c) + if s[lo] == c then 1 else 0
    decreases hi - lo
  {
    if lo + 1 < hi {
      OccursFirst(s, lo, hi - 1, c);
    }
  }

  lemma {:induction false} OccursGrows(s: string, lo: nat, hi: nat, lo': nat, hi': nat, c: char)
    requires lo' <= lo <= hi <= hi' <= |s|
    ensures Occurs(s, lo, hi, c) <= Occurs(s, lo', hi', c)
    decreases hi' - hi, lo - lo'
  {
    if hi < hi' {
      OccursGrows(s, lo, hi, lo', hi' - 1, c);
    } else if lo' < lo {
      OccursFirst(s, lo - 1, hi, c);
      OccursGrows(s, lo - 1, hi, lo', hi', c);
    }
  }

  predicate Enough(source: string, target: string, lo: int, hi: int, c: char)
    requires 0 <= lo && hi <= |source|
  {
    Occurs(target, 0, |target|, c) <= Occurs(source, lo, hi, c)
  }

  ghost predicate Full(source: string, target: string, lo: int, hi: int) {
    0 <= lo <= hi <= |source| && forall c :: Enough(source, target, lo, hi, c)
  }

  lemma FullIsCovering(source: string, target: string, lo: int, hi: int)
    ensures Full(source, target, lo, hi) <==> Covering(source, target, lo, hi)
  {
    if 0 <= lo <= hi <= |source| {
      assert target[0..|target|] == target;
      forall c
        ensures Enough(source, target, lo, hi, c) <==> multiset(target)[c] <= multiset(source[lo..hi])[c]
      {
        OccursCounts(source, lo, hi, c);
        OccursCounts(target, 0, |target|, c);
      }
      if Full(source, target, lo, hi) {
        forall c
          ensures multiset(target)[c] <= multiset(source[lo..hi])[c]
        {
          assert Enough(source, target, lo, hi, c);
        }
      }
    }
  }

  lemma FullGrows(source: string, target: string, lo: nat, hi: nat, lo': nat, hi': nat)
    requires lo' <= lo <= hi <= hi' <= |source| && Full(source, target, lo, hi)
    ensures Full(source, target, lo', hi')
  {
    forall c
      ensures Enough(source, target, lo', hi', c)
    {
      assert Enough(source, target, lo, hi, c);
      OccursGrows(source, lo, hi, lo', hi', c);
    }
  }

  lemma FullIsNotEmpty(source: string, target: string, lo: nat, hi: nat)
    requires Full(source, target, lo, hi) && target != ""
    ensures lo < hi
  {
    var c := target[|target| - 1];
    assert Enough(source, target, lo, hi, c);
  }

  // ----- the counters

  type Counts = map<char, int>

  function Get(m: Counts, c: char): int {
    if c in m then m[c] else 0
  }

  ghost predicate IsNeed(need: Counts, target: string, n: nat)
    requires n <= |target|
  {
    forall c :: Get(need, c) == Occurs(target, 0, n, c) && (c in need <==> Occurs(target, 0, n, c) > 0)
  }

  method CountTarget(target: string) returns (need: Counts)
    ensures IsNeed(need, target, |target|)
  {
    need := map[];
    for i := 0 to |target|
      invariant IsNeed(need, target, i)
    {
      need := need[target[i] := Get(need, target[i]) + 1];
    }
  }

  ghost function Satisfied(source: string, need: Counts, lo: int, hi: int): set<char>
    requires 0 <= lo && hi <= |source|
  {
    set c | c in need && need[c] <= Occurs(source, lo, hi, c)
  }

  /** The counters describe the window lo..hi. */
  ghost predicate Tracks(source: string, need: Counts, window: Counts, valid: int, lo: int, hi: int) {
    && 0 <= lo <= hi <= |source| && window.Keys <= need.Keys
    && (forall c :: c in need ==> Get(window, c) == Occurs(source, lo, hi, c))
    && valid == |Satisfied(source, need, lo, hi)|
  }

  /** Counting the satisfied characters is enough to see whether the window is full. */
  lemma CountingSuffices(source: string, target: string, need: Counts, lo: nat, hi: nat)
    requires IsNeed(need, target, |target|) && lo <= hi <= |source|
    ensures |Satisfied(source, need, lo, hi)| == |need| <==> Full(source, target, lo, hi)
    ensures Satisfied(source, need, lo, hi) == need.Keys <==> Full(source, target, lo, hi)
  {
    var sat := Satisfied(source, need, lo, hi);
    SubsetSize(sat, need.Keys);
    assert |need| == |need.Keys|;
    forall c
      ensures Enough(source, target, lo, hi, c) <==> (c in need ==> c in sat)
    {
      assert Get(need, c) == Occurs(target, 0, |target|, c);
    }
    if Full(source, target, lo, hi) {
      assert forall c :: c in need.Keys ==> Enough(source, target, lo, hi, c);
    }
  }

  /** The step of the outer loop. */
  method AddRight(source: string, need: Counts, window0: Counts, valid0: int, left: nat, right: nat)
      returns (window: Counts, valid: int)
    requires right < |source| && Tracks(source, need, window0, valid0, left, right)
    ensures Tracks(source, need, window, valid, left, right + 1)
  {
    window, valid := window0, valid0;
    var ch := source[right];
    ghost var sat, sat' := Satisfied(source, need, left, right), Satisfied(source, need, left, right + 1);
    if ch in need {
      window := window[ch := Get(window, ch) + 1];
      if window[ch] == need[ch] {
        valid := valid + 1;
        assert sat' == sat + {ch};
      } else {
        assert sat' == sat;
      }
    } else {
      assert sat' == sat;
    }
  }

  /** What the loops keep when the target is empty: nothing is counted. */
  predicate Idle(need: Counts, window: Counts, valid: int) {
    need == map[] && window == map[] && valid == 0
  }

  /** The character read at `left`; behind the last one is the terminator. */
  function At(source: string, left: nat): char
    requires left <= |source|
  {
    if left < |source| then source[left] else 0 as char
  }

  /** The counting of the inner loop; `dropped`: the character's count fell below the need. */
  method DropLeft(source: string, need: Counts, window0: Counts, valid0: int, left: nat, hi: nat)
      returns (window: Counts, valid: int, dropped: bool)
    requires left <= |source|
    requires Idle(need, window0, valid0) ||
      (left < hi && Tracks(source, need, window0, valid0, left, hi) && Satisfied(source, need, left, hi) == need.Keys)
    ensures Idle(need, window0, valid0) ==> Idle(need, window, valid) && !dropped
    ensures !Idle(need, window0, valid0) ==>
      && Tracks(source, need, window, valid, left + 1, hi)
      && (dropped <==> Satisfied(source, need, left + 1, hi) != need.Keys)
  {
    window, valid, dropped := window0, valid0, false;
    var ch := At(source, left);
    if ch in window {
      window := window[ch := window[ch] - 1];
      if window[ch] < need[ch] {
        valid := valid - 1;
        dropped := true;
      }
    }
    if !Idle(need, window0, valid0) {
      Dropped(source, need, window0, valid0, left, hi);
    }
  }

  /** What dropping the first character does to the counters. */
  lemma {:induction false} Dropped(source: string, need: Counts, window: Counts, valid: int, left: nat, hi: nat)
    requires left < hi && Tracks(source, need, window, valid, left, hi) && Satisfied(source, need, left, hi) == need.Keys
    ensures var ch := source[left];
      if ch !in window then Tracks(source, need, window, valid, left + 1, hi) && Satisfied(source, need, left + 1, hi) == need.Keys
      else
        var window', dropped := window[ch := window[ch] - 1], window[ch] - 1 < need[ch];
        && Tracks(source, need, window', if dropped then valid - 1 else valid, left + 1, hi)
        && (dropped <==> Satisfied(source, need, left + 1, hi) != need.Keys)
  {
    var ch := source[left];
    var sat, sat' := Satisfied(source, need, left, hi), Satisfied(source, need, left + 1, hi);
    forall c
      ensures Occurs(source, left, hi, c) == Occurs(source, left + 1, hi, c) + if c == ch then 1 else 0
    {
      OccursFirst(source, left, hi, c);
    }
    assert ch in need ==> Get(window, ch) == Occurs(source, left, hi, ch);
    if ch in window && window[ch] - 1 < need[ch] {
      assert ch in sat;
      assert sat' == sat - {ch};
    } else {
      assert sat' == sat;
    }
  }

  // ----- the search

  /** The best window found so far, which started before `left`. */
  ghost predicate Recorded(source: string, target: string, result: string, minCount: int, start: int, left: int) {
    if minCount < INT_MAX then
      && 0 < minCount && 0 <= start < left && Full(source, target, start, start + minCount)
      && result == source[start..start + minCount]
    else
      minCount == INT_MAX && result == ""
  }

  /** Every full window shorter than INT_MAX that ends by `done` or starts before `left` is beaten by
      the best one, or is longer than the window left..cur, which is full and about to be shortened. */
  ghost predicate Searched(source: string, target: string, minCount: int, start: int, left: int, done: int, cur: int) {
    forall lo, hi :: Full(source, target, lo, hi) && hi - lo < INT_MAX && (hi <= done || lo < left) ==>
      (minCount < INT_MAX && Beats(start, minCount, lo, hi)) || (Full(source, target, left, cur) && cur - left < hi - lo)
  }

  lemma SearchStarts(source: string, target: string)
    requires target != ""
    ensures Searched(source, target, INT_MAX, 0, 0, 0, 1) && !Full(source, target, 0, 0)
  {
    forall lo, hi
      ensures hi <= 0 ==> !Full(source, target, lo, hi)
    {
      if Full(source, target, lo, hi) {
        FullIsNotEmpty(source, target, lo, hi);
      }
    }
  }

  lemma DropRecords(source: string, target: string, minCount: int, start: int, left: nat, cur: nat)
    requires Searched(source, target, minCount, start, left, cur - 1, cur) && Full(source, target, left, cur)
    requires minCount < INT_MAX ==> start < left
    requires minCount <= INT_MAX
    ensures var better := minCount > cur - left;
      Searched(source, target, if better then cur - left else minCount, if better then left else start, left + 1, cur - 1, cur)
  {
  }

  lemma DropKeeps(source: string, target: string, minCount: int, start: int, left: nat, cur: nat)
    requires Searched(source, target, minCount, start, left, cur - 1, cur)
    requires Full(source, target, left, cur) && Full(source, target, left + 1, cur)
    ensures Searched(source, target, minCount, start, left + 1, cur - 1, cur)
  {
  }

  /** Once the window is not full, no window that ends at `cur` and starts later is. */
  lemma NextRight(source: string, target: string, minCount: int, start: int, left: nat, cur: nat)
    requires Searched(source, target, minCount, start, left, cur - 1, cur)
    requires left <= cur <= |source| && !Full(source, target, left, cur)
    ensures Searched(source, target, minCount, start, left, cur, cur + 1)
  {
    forall lo, hi | Full(source, target, lo, hi) && hi - lo < INT_MAX && (hi <= cur || lo < left)
      ensures minCount < INT_MAX && Beats(start, minCount, lo, hi)
    {
      if lo >= left && hi == cur {
        FullGrows(source, target, lo, hi, left, cur);
      }
    }
  }

  lemma {:induction false} SearchEnds(source: string, target: string, result: string, minCount: int, start: int, left: nat)
    requires Searched(source, target, minCount, start, left, |source|, |source| + 1) && target != ""
    requires Recorded(source, target, result, minCount, start, left)
    ensures IsMinimal(source, target, result) <==> Countable(source, target)
    ensures !Countable(source, target) ==> result == ""
  {
    forall lo, hi
      ensures Full(source, target, lo, hi) <==> Covering(source, target, lo, hi)
    {
      FullIsCovering(source, target, lo, hi);
    }
    if minCount < INT_MAX {
      assert Covering(source, target, start, start + minCount);
      forall lo, hi | Covering(source, target, lo, hi)
        ensures Beats(start, minCount, lo, hi)
      {
      }
      assert LeftmostShortest(source, target, start, |result|);
    } else {
      assert forall lo, hi :: Covering(source, target, lo, hi) ==> hi - lo >= INT_MAX;
    }
  }

  /** What the loops keep otherwise. */
  ghost predicate Going(source: string, target: string, need: Counts, window: Counts, valid: int, left: int, hi: int,
                        done: int, cur: int, result: string, minCount: int, start: int)
  {
    && IsNeed(need, target, |target|) && Tracks(source, need, window, valid, left, hi)
    && Searched(source, target, minCount, start, left, done, cur)
    && Recorded(source, target, result, minCount, start, left)
  }

  /** Recording a window that is about to lose a needed character, if it is shorter than the best so far. */
  method KeepBetter(source: string, target: string, dropped: bool, result0: string, minCount0: int, ghost start0: int, left: nat, hi: nat)
      returns (result: string, minCount: int, ghost start: int)
    requires target == "" ==> !dropped
    requires target != "" ==>
      && left < hi <= |source| && Full(source, target, left, hi)
      && (dropped <==> !Full(source, target, left + 1, hi))
      && Searched(source, target, minCount0, start0, left, hi - 1, hi)
      && Recorded(source, target, result0, minCount0, start0, left)
    ensures target != "" ==>
      && Searched(source, target, minCount, start, left + 1, hi - 1, hi)
      && Recorded(source, target, result, minCount, start, left + 1)
  {
    result, minCount, start := result0, minCount0, start0;
    if dropped {
      DropRecords(source, target, minCount, start, left, hi);
      var len := hi - left;
      if minCount > len {
        minCount := len;
        result := source[left..left + len];
        start := left;
      }
    } else if target != "" {
      DropKeeps(source, target, minCount, start, left, hi);
    }
  }

  /** One round of the inner loop. */
  method ShrinkOnce(source: string, target: string, need: Counts, window0: Counts, valid0: int, left: nat, hi: nat,
                    result0: string, minCount0: int, ghost start0: int)
      returns (window: Counts, valid: int, result: string, minCount: int, ghost start: int)
    requires left <= |source|
    requires target == "" ==> Idle(need, window0, valid0)
    requires target != "" ==>
      && Full(source, target, left, hi)
      && Going(source, target, need, window0, valid0, left, hi, hi - 1, hi, result0, minCount0, start0)
    ensures target == "" ==> Idle(need, window, valid)
    ensures target != "" ==>
      && left < hi && (valid == |need| <==> Full(source, target, left + 1, hi))
      && Going(source, target, need, window, valid, left + 1, hi, hi - 1, hi, result, minCount, start)
  {
    if target != "" {
      FullIsNotEmpty(source, target, left, hi);
      CountingSuffices(source, target, need, left, hi);
      NeedsSomething(target, need);
    }
    var dropped;
    window, valid, dropped := DropLeft(source, need, window0, valid0, left, hi);
    if target != "" {
      CountingSuffices(source, target, need, left + 1, hi);
    }
    result, minCount, start := KeepBetter(source, target, dropped, result0, minCount0, start0, left, hi);
  }

  lemma NeedsSomething(target: string, need: Counts)
    requires IsNeed(need, target, |target|)
    ensures need == map[] <==> target == ""
  {
    if target == "" {
      assert forall c :: c !in need;
    } else {
      assert Occurs(target, 0, |target|, target[|target| - 1]) > 0;
      assert target[|target| - 1] in need;
    }
  }

  /** The inner loop, for the window that ends before `hi`; `overrun`: it reads behind the terminator. */
  method ShrinkWhileFull(source: string, target: string, need: Counts, window0: Counts, valid0: int, left0: nat, hi: nat,
                         result0: string, minCount0: int, ghost start0: int)
      returns (overrun: bool, window: Counts, valid: int, left: nat, result: string, minCount: int, ghost start: int)
    requires left0 <= |source|
    requires target == "" ==> Idle(need, window0, valid0)
    requires target != "" ==> Going(source, target, need, window0, valid0, left0, hi, hi - 1, hi, result0, minCount0, start0)
    ensures overrun <==> target == ""
    ensures target != "" ==>
      && !Full(source, target, left, hi)
      && Going(source, target, need, window, valid, left, hi, hi - 1, hi, result, minCount, start)
  {
    window, valid, left, result, minCount, start := window0, valid0, left0, result0, minCount0, start0;
    if target != "" {
      CountingSuffices(source, target, need, left, hi);
    }
    while valid == |need|
      invariant target == "" ==> Idle(need, window, valid)
      invariant target != "" ==>
        && (valid == |need| <==> Full(source, target, left, hi))
        && Going(source, target, need, window, valid, left, hi, hi - 1, hi, result, minCount, start)
      decreases |source| + 1 - left
    {
      if left > |source| {
        return true, window, valid, left, result, minCount, start;
      }
      window, valid, result, minCount, start := ShrinkOnce(source, target, need, window, valid, left, hi, result, minCount, start);
      left := left + 1;
    }
    overrun := false;
  }

  /** None: the loop for an empty target reads behind the end of a non-empty text. */
  method SlideWindow(source: string, target: string) returns (result: Option<string>)
    ensures result.None? <==> target == "" && source != ""
    ensures source == "" ==> result == Some("")
    ensures target != "" ==> (IsMinimal(source, target, result.value) <==> Countable(source, target))
    ensures target != "" && !Countable(source, target) ==> result.value == ""
    ensures target != "" && |source| < 0x7fff_ffff ==> IsMinimal(source, target, result.value)
  {
    hide IsMinimal, Countable;
    var need := CountTarget(target);
    NeedsSomething(target, need);
    var window: Counts := map[];
    var minCount, valid, left, best := INT_MAX, 0, 0, "";
    ghost var start := 0;
    if target != "" {
      SearchStarts(source, target);
    }
    assert Satisfied(source, need, 0, 0) == {} by {
      assert forall c :: c in need ==> Get(need, c) == need[c];
    }
    for right := 0 to |source|
      invariant target == "" ==> right == 0 && Idle(need, window, valid)
      invariant target != "" ==>
        && !Full(source, target, left, right)
        && Going(source, target, need, window, valid, left, right, right, right + 1, best, minCount, start)
      invariant Tracks(source, need, window, valid, left, right) && (source == "" ==> best == "")
    {
      window, valid := AddRight(source, need, window, valid, left, right);
      var overrun;
      overrun, window, valid, left, best, minCount, start :=
        ShrinkWhileFull(source, target, need, window, valid, left, right + 1, best, minCount, start);
      if overrun {
        return None;
      }
      NextRight(source, target, minCount, start, left, right + 1);
    }
    if target != "" {
      SearchEnds(source, target, best, minCount, start, left);
      ShortTextIsCountable(source, target);
    }
    return Some(best);
  }
}
