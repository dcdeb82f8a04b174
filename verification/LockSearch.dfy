/** 算法/openlock.cc and 算法/Dial.cc: breadth-first search over the codes of a four-wheel lock. */
module LockSearch {
  import opened Basics

  type Code = string

  const START: Code := "0000"

  predicate IsCode(c: Code) {
    |c| == 4 && forall i :: 0 <= i < 4 ==> '0' <= c[i] <= '9'
  }

  function PlusOne(cur: Code, index: nat): Code
    requires IsCode(cur) && index < 4
  {
    cur[index := if cur[index] == '9' then '0' else (cur[index] as int + 1) as char]
  }

  function MinusOne(cur: Code, index: nat): Code
    requires IsCode(cur) && index < 4
  {
    cur[index := if cur[index] == '0' then '9' else (cur[index] as int - 1) as char]
  }

  // ----- what the search is for

  /** One turn moves one wheel by one position, cyclically. */
  ghost predicate Turn(a: Code, b: Code) {
    && IsCode(a) && IsCode(b)
    && exists i :: 0 <= i < 4 && TurnAt(a, b, i)
  }

  predicate TurnAt(a: Code, b: Code, i: nat)
    requires IsCode(a) && IsCode(b) && i < 4
  {
    && (forall j :: 0 <= j < 4 && j != i ==> a[j] == b[j])
    && (b[i] as int - a[i] as int) % 10 in {1, 9}
  }

  /** A walk from the start to `c` by single turns on which no code is dead. */
  ghost predicate Path(dead: set<Code>, p: seq<Code>, c: Code) {
    && |p| > 0 && p[0] == "0000" && p[|p| - 1] == c
    && (forall i :: 0 <= i < |p| ==> p[i] !in dead)
    && (forall i :: 0 < i < |p| ==> Turn(p[i - 1], p[i]))
  }

  /** The shortest number of turns, or -1 if no walk exists. */
  ghost predicate Shortest(dead: set<Code>, target: Code, r: int) {
    if r == -1 then forall p :: !Path(dead, p, target)
    else
      && (exists p :: Path(dead, p, target) && |p| == r + 1)
      && (forall p :: Path(dead, p, target) ==> |p| >= r + 1)
  }

  lemma ShortestIsUnique(dead: set<Code>, target: Code, r1: int, r2: int)
    requires Shortest(dead, target, r1) && Shortest(dead, target, r2)
    ensures r1 == r2
  {
  }

  /** The source's eight neighbours are exactly the codes one turn away. */
  lemma {:induction false} Neighbours(a: Code, b: Code)
    requires IsCode(a)
    ensures Turn(a, b) <==> exists i :: 0 <= i < 4 && (b == PlusOne(a, i) || b == MinusOne(a, i))
  {
    if Turn(a, b) {
      var i :| 0 <= i < 4 && TurnAt(a, b, i);
      assert b == PlusOne(a, i) || b == MinusOne(a, i);
    }
    if i :| 0 <= i < 4 && (b == PlusOne(a, i) || b == MinusOne(a, i)) {
      assert TurnAt(a, b, i);
    }
  }

  // ----- walks of bounded length

  ghost predicate Within(dead: set<Code>, n: nat, c: Code) {
    exists p :: Path(dead, p, c) && |p| <= n + 1
  }

  lemma {:induction false} Extend(dead: set<Code>, n: nat, b: Code, c: Code)
    requires Within(dead, n, b) && Turn(b, c) && c !in dead
    ensures Within(dead, n + 1, c)
  {
    var p :| Path(dead, p, b) && |p| <= n + 1;
    assert Path(dead, p + [c], c);
  }

  lemma {:induction false} Last(dead: set<Code>, n: nat, c: Code)
    requires Within(dead, n, c) && c != START
    ensures n > 0 && c !in dead && exists b :: Within(dead, n - 1, b) && Turn(b, c)
  {
    var p :| Path(dead, p, c) && |p| <= n + 1;
    var b := p[|p| - 2];
    assert Path(dead, p[..|p| - 1], b);
    assert Within(dead, n - 1, b) && Turn(b, c);
  }

  lemma Monotone(dead: set<Code>, m: nat, n: nat, c: Code)
    requires Within(dead, m, c) && m <= n
    ensures Within(dead, n, c) && c !in dead
  {
    var p :| Path(dead, p, c) && |p| <= m + 1;
  }

  // ----- the search's invariant

  lemma AllCodes() returns (codes: set<Code>)
    ensures forall c :: c in codes <==> IsCode(c)
  {
    codes := set a: char, b: char, c: char, d: char |
      '0' <= a <= '9' && '0' <= b <= '9' && '0' <= c <= '9' && '0' <= d <= '9' :: [a, b, c, d];
    assert forall c :: IsCode(c) ==> c == [c[0], c[1], c[2], c[3]];
  }

  /** `done`: the codes expanded so far; `level`: what is left of the codes of distance `d`;
      `next`: the codes already queued for distance `d + 1`. */
  ghost predicate Searching(dead: set<Code>, target: Code, seen: set<Code>, done: set<Code>, level: seq<Code>, next: seq<Code>, d: nat) {
    && START in seen && (forall c :: c in seen ==> IsCode(c)) && target !in done
    && Closed(done, seen)
    && Queued(dead, seen, done, level, next)
    && Distances(dead, done, level, next, d)
  }

  ghost predicate Closed(done: set<Code>, seen: set<Code>) {
    forall b, c :: b in done && Turn(b, c) ==> c in seen
  }

  ghost predicate Queued(dead: set<Code>, seen: set<Code>, done: set<Code>, level: seq<Code>, next: seq<Code>) {
    && (forall c :: c in level || c in next ==> c in seen)
    && (forall c :: c in seen ==> c in dead || c in done || c in level || c in next)
  }

  ghost predicate Distances(dead: set<Code>, done: set<Code>, level: seq<Code>, next: seq<Code>, d: nat) {
    && (forall c :: c in done ==> Within(dead, d, c))
    && (forall c :: c in level && c !in dead ==> Within(dead, d, c))
    && (forall c :: c in next && c !in dead ==> Within(dead, d + 1, c))
    && (forall c :: Within(dead, d, c) ==> c in done || c in level)
    && (d > 0 ==> forall c :: Within(dead, d - 1, c) ==> c in done)
  }

  lemma {:induction false} SearchStarts(dead: set<Code>, target: Code)
    ensures Searching(dead, target, {START}, {}, [START], [], 0)
  {
    assert START !in dead ==> Path(dead, [START], START);
    forall c | Within(dead, 0, c)
      ensures c == START
    {
      var p :| Path(dead, p, c) && |p| <= 1;
    }
  }

  lemma {:induction false} SkipDead(dead: set<Code>, target: Code, seen: set<Code>, done: set<Code>, level: seq<Code>, next: seq<Code>, d: nat)
    requires Searching(dead, target, seen, done, level, next, d)
    requires level != [] && (level[0] in dead || level[0] in done)
    ensures Searching(dead, target, seen, done, level[1..], next, d)
  {
    assert forall c :: c in level <==> c == level[0] || c in level[1..];
    forall c | Within(dead, d, c)
      ensures c in done || c in level[1..]
    {
      Monotone(dead, d, d, c);
    }
  }

  /** Dial.cc queues the start once more, at a distance from which it is already done. */
  lemma {:induction false} SkipDeadOrStart(dead: set<Code>, target: Code, seen: set<Code>, done: set<Code>, level: seq<Code>, next: seq<Code>, d: nat)
    requires Searching(dead, target, seen, done, level, next, d)
    requires level != [] && (level[0] in dead || (level[0] == START && START !in dead && d > 0))
    ensures Searching(dead, target, seen, done, level[1..], next, d)
  {
    if level[0] !in dead {
      assert Path(dead, [START], START);
      assert Within(dead, d - 1, START);
    }
    SkipDead(dead, target, seen, done, level, next, d);
  }

  lemma ExpandQueued(dead: set<Code>, seen: set<Code>, done: set<Code>, level: seq<Code>, next: seq<Code>, added: seq<Code>)
    requires level != [] && Queued(dead, seen, done, level, next)
    ensures Queued(dead, seen + ToSet(added), done + {level[0]}, level[1..], next + added)
  {
    assert forall c :: c in level <==> c == level[0] || c in level[1..];
    assert forall c :: c in next + added <==> c in next || c in added;
  }

  lemma {:induction false} ExpandDistances(dead: set<Code>, done: set<Code>, level: seq<Code>, next: seq<Code>, d: nat, added: seq<Code>)
    requires level != [] && level[0] !in dead && Distances(dead, done, level, next, d)
    requires forall c :: c in added ==> Turn(level[0], c)
    ensures Distances(dead, done + {level[0]}, level[1..], next + added, d)
  {
    assert forall c :: c in level <==> c == level[0] || c in level[1..];
    assert forall c :: c in next + added <==> c in next || c in added;
    forall c | c in added && c !in dead
      ensures Within(dead, d + 1, c)
    {
      Extend(dead, d, level[0], c);
    }
  }

  lemma {:induction false} Expand(dead: set<Code>, target: Code, seen: set<Code>, done: set<Code>, level: seq<Code>, next: seq<Code>, d: nat, added: seq<Code>)
    requires Searching(dead, target, seen, done, level, next, d)
    requires level != [] && level[0] !in dead && level[0] != target
    requires forall c :: c in added ==> Turn(level[0], c)
    requires forall c :: Turn(level[0], c) ==> c in seen || c in added
    ensures Searching(dead, target, seen + ToSet(added), done + {level[0]}, level[1..], next + added, d)
  {
    var seen' := seen + ToSet(added);
    ExpandQueued(dead, seen, done, level, next, added);
    ExpandDistances(dead, done, level, next, d, added);
    assert Closed(done + {level[0]}, seen') by {
      assert forall c :: Turn(level[0], c) ==> c in seen';
    }
  }

  lemma {:induction false} NextLevel(dead: set<Code>, target: Code, seen: set<Code>, done: set<Code>, next: seq<Code>, d: nat)
    requires Searching(dead, target, seen, done, [], next, d)
    ensures Searching(dead, target, seen, done, next, [], d + 1)
  {
    forall c | c in done
      ensures Within(dead, d + 1, c)
    {
      Monotone(dead, d, d + 1, c);
    }
    forall c | Within(dead, d + 1, c)
      ensures c in done || c in next
    {
      Monotone(dead, d + 1, d + 1, c);
      if c != START {
        Last(dead, d + 1, c);
      }
    }
  }

  lemma Found(dead: set<Code>, target: Code, seen: set<Code>, done: set<Code>, level: seq<Code>, next: seq<Code>, d: nat)
    requires Searching(dead, target, seen, done, level, next, d)
    requires level != [] && level[0] == target && target !in dead
    ensures Shortest(dead, target, d)
  {
    assert Within(dead, d, target);
    forall p | Path(dead, p, target)
      ensures |p| >= d + 1
    {
      assert |p| < d + 1 ==> Within(dead, d - 1, target);
    }
  }

  lemma {:induction false} WalkStaysDone(dead: set<Code>, seen: set<Code>, done: set<Code>, p: seq<Code>, c: Code)
    requires START in seen && (forall c :: c in seen ==> c in dead || c in done) && Closed(done, seen)
    requires Path(dead, p, c)
    ensures c in done
    decreases |p|
  {
    if |p| > 1 {
      WalkStaysDone(dead, seen, done, p[..|p| - 1], p[|p| - 2]);
    }
  }

  lemma Exhausted(dead: set<Code>, target: Code, seen: set<Code>, done: set<Code>, d: nat)
    requires Searching(dead, target, seen, done, [], [], d)
    ensures Shortest(dead, target, -1)
  {
    forall p
      ensures !Path(dead, p, target)
    {
      if Path(dead, p, target) {
        WalkStaysDone(dead, seen, done, p, target);
      }
    }
  }

  lemma RestOf(a: seq<Code>, b: seq<Code>)
    requires a != []
    ensures (a + b)[0] == a[0] && (a + b)[1..] == a[1..] + b
  {
  }

  // ----- termination: a level that queues anything marks a new code

  ghost predicate Grown(before: set<Code>, marked: set<Code>) {
    before <= marked && exists c :: c in marked && c !in before
  }

  lemma FewerUnmarked(dead: set<Code>, target: Code, done: set<Code>, level: seq<Code>, next: seq<Code>, d: nat,
                      codes: set<Code>, before: set<Code>, marked: set<Code>)
    requires Searching(dead, target, marked + {START}, done, level, next, d)
    requires Grown(before, marked) && forall c :: IsCode(c) ==> c in codes
    ensures codes - marked < codes - before
  {
  }

  // ----- the two searches

  /** The loop over the four wheels: every unseen neighbour of `front` is queued and marked. */
  method OfferNeighbours(front: Code, queue0: seq<Code>, visited0: set<Code>)
      returns (queue: seq<Code>, visited: set<Code>, ghost added: seq<Code>)
    requires IsCode(front)
    ensures queue == queue0 + added && visited == visited0 + ToSet(added)
    ensures forall c :: c in added ==> Turn(front, c) && c !in visited0
    ensures forall c :: Turn(front, c) ==> c in visited
    ensures visited0 <= visited && (added == [] || Grown(visited0, visited))
  {
    queue, visited, added := queue0, visited0, [];
    for jdex := 0 to 4
      invariant queue == queue0 + added && visited == visited0 + ToSet(added)
      invariant forall c :: c in added ==> Turn(front, c) && c !in visited0
      invariant forall j :: 0 <= j < jdex ==> PlusOne(front, j) in visited && MinusOne(front, j) in visited
    {
      var plus := PlusOne(front, jdex);
      Neighbours(front, plus);
      if plus !in visited {
        queue := queue + [plus];
        visited := visited + {plus};
        added := added + [plus];
      }
      var minus := MinusOne(front, jdex);
      Neighbours(front, minus);
      if minus !in visited {
        queue := queue + [minus];
        visited := visited + {minus};
        added := added + [minus];
      }
    }
    forall c | Turn(front, c)
      ensures c in visited
    {
      Neighbours(front, c);
    }
    assert added != [] ==> added[0] in visited && added[0] !in visited0;
  }

  /** Expanding the live code `front`. The start counts as seen, whether it is marked or not. */
  method ExpandFront(front: Code, queue0: seq<Code>, visited0: set<Code>, ghost dead: set<Code>, ghost target: Code,
                     ghost done: set<Code>, ghost level: seq<Code>, ghost next0: seq<Code>, ghost d: nat)
      returns (queue: seq<Code>, visited: set<Code>, ghost next: seq<Code>)
    requires Searching(dead, target, visited0 + {START}, done, level, next0, d)
    requires level != [] && level[0] == front && front !in dead && front != target
    requires queue0 == level[1..] + next0
    ensures Searching(dead, target, visited + {START}, done + {front}, level[1..], next, d)
    ensures queue == level[1..] + next
    ensures visited0 <= visited && (next == next0 || Grown(visited0, visited))
  {
    ghost var added;
    queue, visited, added := OfferNeighbours(front, queue0, visited0);
    next := next0 + added;
    Expand(dead, target, visited0 + {START}, done, level, next0, d, added);
    assert visited0 + {START} + ToSet(added) == visited + {START};
    Associate(level[1..], next0, added);
  }

  /** openlock.cc: the starting code is not looked up among the dead ends when it is the target. */
  method Openlock(deathVec: seq<Code>, target: Code) returns (r: int)
    ensures target == "0000" ==> r == 0
    ensures target != "0000" ==> Shortest(ToSet(deathVec), target, r)
  {
    if target == START {
      return 0;
    }
    hide Searching, Shortest;
    var queue: seq<Code>, visited, invalid, dialCount := [START], {START}, ToSet(deathVec), 0;
    ghost var done: set<Code> := {};
    SearchStarts(invalid, target);
    assert visited + {START} == {START};
    ghost var codes := AllCodes();
    while queue != []
      invariant dialCount >= 0 && Searching(invalid, target, visited + {START}, done, queue, [], dialCount)
      decreases codes - visited, |queue|
    {
      ghost var visited0, level, next: seq<Code> := visited, queue, [];
      var size := |queue|;
      for index := 0 to size
        invariant queue == level + next && |level| == size - index
        invariant Searching(invalid, target, visited + {START}, done, level, next, dialCount)
        invariant visited0 <= visited && (next == [] || Grown(visited0, visited))
      {
        var front := queue[0];
        queue := queue[1..];
        RestOf(level, next);
        if front in invalid {
          SkipDead(invalid, target, visited + {START}, done, level, next, dialCount);
          level := level[1..];
          continue;
        }
        if front == target {
          Found(invalid, target, visited + {START}, done, level, next, dialCount);
          return dialCount;
        }
        queue, visited, next := ExpandFront(front, queue, visited, invalid, target, done, level, next, dialCount);
        level, done := level[1..], done + {front};
      }
      assert queue == next;
      if next != [] {
        FewerUnmarked(invalid, target, done, [], next, dialCount, codes, visited0, visited);
      }
      NextLevel(invalid, target, visited + {START}, done, next, dialCount);
      dialCount := dialCount + 1;
    }
    Exhausted(invalid, target, visited + {START}, done, dialCount);
    return -1;
  }

  /** The dead ends Dial.cc obeys: all but the start. */
  ghost predicate Obeyed(dead: set<Code>, deadends: seq<Code>) {
    forall c :: c in dead <==> c in deadends && c != START
  }

  lemma ObeyedExist(deadends: seq<Code>) returns (dead: set<Code>)
    ensures Obeyed(dead, deadends)
  {
    dead := ToSet(deadends) - {START};
  }

  lemma ObeyedAreThese(dead: set<Code>, deadends: seq<Code>, target: Code, r: int)
    requires Obeyed(dead, deadends) && Shortest(dead, target, r)
    ensures Shortest(ToSet(deadends) - {"0000"}, target, r)
  {
    assert dead == ToSet(deadends) - {START};
  }

  /** Dial.cc: no dead end counts while the first level is read, and the start is not marked as seen. */
  method DialOpenLock(deadends: seq<Code>, target: Code) returns (r: int)
    ensures Shortest(ToSet(deadends) - {"0000"}, target, r)
  {
    hide Searching, Shortest;
    var dialCount, init := 0, false;
    var queue: seq<Code>, backup: set<Code> := [START], {};
    ghost var dead := ObeyedExist(deadends);
    ghost var done: set<Code> := {};
    SearchStarts(dead, target);
    assert backup + {START} == {START};
    ghost var codes := AllCodes();
    while queue != []
      invariant dialCount >= 0 && (init <==> dialCount > 0) && (!init ==> queue == [START])
      invariant Searching(dead, target, backup + {START}, done, queue, [], dialCount)
      decreases codes - backup, |queue|
    {
      ghost var backup0, level, next: seq<Code> := backup, queue, [];
      var size := |queue|;
      for index := 0 to size
        invariant queue == level + next && |level| == size - index && (!init ==> level <= [START])
        invariant Searching(dead, target, backup + {START}, done, level, next, dialCount)
        invariant backup0 <= backup && (next == [] || Grown(backup0, backup))
      {
        var dialNum := queue[0];
        queue := queue[1..];
        RestOf(level, next);
        if init && dialNum in deadends {
          SkipDeadOrStart(dead, target, backup + {START}, done, level, next, dialCount);
          level := level[1..];
          continue;
        }
        if dialNum == target {
          Found(dead, target, backup + {START}, done, level, next, dialCount);
          ObeyedAreThese(dead, deadends, target, dialCount);
          return dialCount;
        }
        queue, backup, next := ExpandFront(dialNum, queue, backup, dead, target, done, level, next, dialCount);
        level, done := level[1..], done + {dialNum};
      }
      assert queue == next;
      if next != [] {
        FewerUnmarked(dead, target, done, [], next, dialCount, codes, backup0, backup);
      }
      NextLevel(dead, target, backup + {START}, done, next, dialCount);
      dialCount := dialCount + 1;
      init := true;
    }
    Exhausted(dead, target, backup + {START}, done, dialCount);
    ObeyedAreThese(dead, deadends, target, -1);
    return -1;
  }

  // ----- where each answer is the one asked for

  /** The one family of inputs on which openlock's answer is not the shortest distance. */
  lemma OpenlockIsRight(deathVec: seq<Code>, target: Code, r: int)
    requires if target == "0000" then r == 0 else Shortest(ToSet(deathVec), target, r)
    ensures Shortest(ToSet(deathVec), target, r) <==> !(target == "0000" && "0000" in deathVec)
  {
    var dead := ToSet(deathVec);
    if target == "0000" {
      if "0000" !in deathVec {
        assert Path(dead, ["0000"], "0000");
      }
    }
  }

  /** Dial.cc's answer ignores a dead start; it is right exactly if that start is not dead or bars
      the way to nothing. */
  lemma DialIsRight(deadends: seq<Code>, target: Code, r: int)
    requires Shortest(ToSet(deadends) - {"0000"}, target, r)
    ensures Shortest(ToSet(deadends), target, r) <==>
      "0000" !in deadends || forall p :: !Path(ToSet(deadends) - {"0000"}, p, target)
  {
    if "0000" in deadends {
      assert Shortest(ToSet(deadends), target, -1);
      if Shortest(ToSet(deadends), target, r) {
        ShortestIsUnique(ToSet(deadends), target, r, -1);
      }
    } else {
      assert ToSet(deadends) - {"0000"} == ToSet(deadends);
    }
  }

  /** The two searches agree exactly unless the start is dead and some other target could be reached
      from it. */
  lemma SearchesAgree(deadends: seq<Code>, target: Code, r1: int, r2: int)
    requires if target == "0000" then r1 == 0 else Shortest(ToSet(deadends), target, r1)
    requires Shortest(ToSet(deadends) - {"0000"}, target, r2)
    ensures r1 == r2 <==>
      "0000" !in deadends || target == "0000" || forall p :: !Path(ToSet(deadends) - {"0000"}, p, target)
  {
    var dead := ToSet(deadends);
    if target == "0000" {
      assert Path(dead - {"0000"}, ["0000"], "0000");
    } else {
      DialIsRight(deadends, target, r2);
      if Shortest(dead, target, r2) {
        ShortestIsUnique(dead, target, r1, r2);
      }
    }
  }

  /** With only the start dead, openlock finds no way to the next code and Dial.cc finds one turn. */
  lemma {:induction false} SearchesDiffer(r1: int, r2: int)
    requires Shortest(ToSet(["0000"]), "1000", r1) && Shortest(ToSet(["0000"]) - {"0000"}, "1000", r2)
    ensures r1 == -1 && r2 == 1
  {
    var dead := ToSet(["0000"]);
    assert "0000" in ["0000"];
    assert Shortest(dead, "1000", -1);
    ShortestIsUnique(dead, "1000", r1, -1);
    assert TurnAt("0000", "1000", 0);
    assert Path(dead - {"0000"}, ["0000", "1000"], "1000");
    assert Shortest(dead - {"0000"}, "1000", 1);
    ShortestIsUnique(dead - {"0000"}, "1000", r2, 1);
  }
}
