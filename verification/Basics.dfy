/** What several models share. */
module Basics {

  datatype Option<+T> = None | Some(value: T) {
    function GetOr(default: T): T {
      if Some? then value else default
    }
  }

  function Max(first: int, second: int): (r: int)
    ensures first <= r && second <= r && (r == first || r == second)
  {
    if first > second then first else second
  }

  function Min(first: int, second: int): (r: int)
    ensures r <= first && r <= second && (r == first || r == second)
  {
    if second < first then second else first
  }

  function Abs(x: int): (r: nat)
    ensures r == x || r == -x
  {
    if x < 0 then -x else x
  }

  /** The top of a stack is its last element. */
  function Top<T>(stack: seq<T>): T
    requires stack != []
  {
    stack[|stack| - 1]
  }

  function Pop<T>(stack: seq<T>): seq<T>
    requires stack != []
  {
    stack[..|stack| - 1]
  }

  function ToSet<T>(s: seq<T>): set<T> {
    set x | x in s
  }

  ghost predicate NoRepeats<T>(s: seq<T>) {
    forall i, j :: 0 <= i < j < |s| ==> s[i] != s[j]
  }

  lemma SubsetSize<T>(a: set<T>, b: set<T>)
    requires a <= b
    ensures |a| <= |b| && (|a| == |b| ==> a == b)
  {
    assert b == a + (b - a);
  }

  lemma Associate<T>(a: seq<T>, b: seq<T>, c: seq<T>)
    ensures (a + b) + c == a + (b + c)
  {
  }
}
