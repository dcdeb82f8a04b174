/** cpp/test2.cpp: the two-stack evaluator that recurses on parentheses. */
module StackCalculator {
  import opened Basics
  import opened Expression

  /** op_priority: `first` binds tighter than `second`; None is the exception on an unknown operator. */
  function Comp(c: char): Option<nat> {
    if IsMulOp(c) then Some(1) else if IsAddOp(c) then Some(2) else None
  }

  function OpPriority(first: char, second: char): (r: Option<bool>)
    ensures r.Some? <==> first in "+-*/" && second in "+-*/"
    ensures r == Some(true) <==> first in "*/" && second in "+-"
  {
    if Comp(first).Some? && Comp(second).Some? then Some(Comp(first).value < Comp(second).value) else None
  }

  /** op_on_stack: a missing left operand reads as 0, an empty stack is left alone. None is a division
      by zero or an operator without a case. */
  function OpOnStack(nums: seq<int>, op: char): Option<seq<int>> {
    if nums == [] then Some(nums) else
      var n := |nums| - 1;
      var first := if n == 0 then 0 else nums[n - 1];
      var r := Calculate(first, op, nums[n]);
      if r.None? then None else Some((if n == 0 then [] else nums[..n - 1]) + [r.value])
  }

  datatype State = State(num: int, nums: seq<int>, ops: seq<char>)

  /** The inner loop at an operator: apply what binds at least as tight as `ch`. */
  function Unwind(nums: seq<int>, ops: seq<char>, ch: char): Option<State>
    decreases |ops|
  {
    if ops == [] then Some(State(0, nums, ops)) else
      var top := ops[|ops| - 1];
      var tighter := OpPriority(ch, top);
      if tighter.None? then None
      else if tighter.value then Some(State(0, nums, ops))
      else
        var r := OpOnStack(nums, top);
        if r.None? then None else Unwind(r.value, ops[..|ops| - 1], ch)
  }

  function AtOperator(ch: char, st: State): Option<State> {
    var r := Unwind(st.nums + [st.num], st.ops, ch);
    if r.None? then None else Some(State(0, r.value.nums, r.value.ops + [ch]))
  }

  /** The position in `s` of the bracket that brings `match` down to 0; None runs past the end. */
  function Closing(s: string, depth: nat): Option<nat>
    requires depth > 0
    ensures Closing(s, depth).Some? ==> Closing(s, depth).value < |s|
  {
    if s == [] then None
    else if s[0] == ')' && depth == 1 then Some(0)
    else
      var r := Closing(s[1..], if s[0] == ')' then depth - 1 else if s[0] == '(' then depth + 1 else depth);
      if r.None? then None else Some(r.value + 1)
  }

  lemma ClosingAt(input: string, pos: nat, depth: nat)
    requires 0 < pos <= |input| && depth > 0
    ensures Closing(input[pos..], depth) ==
      if pos == |input| then None
      else if input[pos] == ')' && depth == 1 then Some(0)
      else Later(Closing(input[pos + 1..], if input[pos] == ')' then depth - 1 else if input[pos] == '(' then depth + 1 else depth), 1)
  {
    if pos < |input| {
      assert input[pos..][1..] == input[pos + 1..];
    }
  }

  function Later(pos: Option<nat>, n: nat): Option<nat> {
    if pos.None? then None else Some(pos.value + n)
  }

  /** An operand is pushed at once only when it ends the text. */
  function Pushed(num: int, nums: seq<int>, rest: string): seq<int> {
    PushedAt(num, nums, rest == [])
  }

  function PushedAt(num: int, nums: seq<int>, last: bool): seq<int> {
    if last then nums + [num] else nums
  }

  /** The main loop on the unread text. */
  function Scan(s: string, st: State): Option<State>
    decreases |s|, 0
  {
    if s == [] then Some(st)
    else if s[0] == ' ' then Scan(s[1..], st)
    else if IsDigit(s[0]) then
      var num := st.num * 10 + Digit(s[0]);
      Scan(s[1..], State(num, Pushed(num, st.nums, s[1..]), st.ops))
    else if s[0] == '(' then
      var pos := Closing(s[1..], 1);
      if pos.None? then None else
        var num := Calc(s[1..][..pos.value]);
        var rest := s[1..][pos.value + 1..];
        if num.None? then None else Scan(rest, State(num.value, Pushed(num.value, st.nums, rest), st.ops))
    else
      var r := AtOperator(s[0], st);
      if r.None? then None else Scan(s[1..], r.value)
  }

  /** The other branches, in terms of positions in the whole text. */
  lemma {:induction false} ScanChar(input: string, index: nat, st: State)
    requires index < |input| && input[index] != '('
    ensures var ch, rest := input[index], input[index + 1..];
      Scan(input[index..], st) ==
        if ch == ' ' then Scan(rest, st)
        else if IsDigit(ch) then
          var num := st.num * 10 + Digit(ch);
          Scan(rest, State(num, PushedAt(num, st.nums, index == |input| - 1), st.ops))
        else
          var r := AtOperator(ch, st);
          if r.None? then None else Scan(rest, r.value)
  {
    assert input[index..][1..] == input[index + 1..];
  }

  /** The branch for a bracket, in terms of positions in the whole text. */
  lemma {:induction false} ScanBracket(input: string, index: nat, st: State)
    requires index < |input| && input[index] == '('
    ensures var found := Later(Closing(input[index + 1..], 1), index + 1);
      Scan(input[index..], st) ==
        if found.None? then None else
          var num, pos := Calc(input[index + 1..found.value]), found.value;
          if num.None? then None
          else Scan(input[pos + 1..], State(num.value, PushedAt(num.value, st.nums, pos == |input| - 1), st.ops))
  {
    var s, found := input[index..], Closing(input[index + 1..], 1);
    assert s[1..] == input[index + 1..];
    if found.Some? {
      var pos := index + 1 + found.value;
      assert s[1..][..found.value] == input[index + 1..pos];
      assert s[1..][found.value + 1..] == input[pos + 1..];
    }
  }

  /** The loop that empties the operator stack at the end. */
  function Drain(nums: seq<int>, ops: seq<char>): Option<seq<int>>
    decreases |ops|
  {
    if ops == [] then Some(nums) else
      var r := OpOnStack(nums, ops[|ops| - 1]);
      if r.None? then None else Drain(r.value, ops[..|ops| - 1])
  }

  /** None: an exception, a division by zero, or the top of an empty stack. */
  function Calc(s: string): Option<int>
    decreases |s|, 1
  {
    var st := Scan(s, State(0, [], []));
    if st.None? then None else
      var nums := Drain(st.value.nums, st.value.ops);
      if nums.None? || nums.value == [] then None else Some(nums.value[|nums.value| - 1])
  }

  /** The branch of the main loop for an operator. */
  method PushOperator(num0: int, nums0: seq<int>, ops0: seq<char>, ch: char) returns (ok: bool, nums: seq<int>, ops: seq<char>)
    ensures AtOperator(ch, State(num0, nums0, ops0)) == if ok then Some(State(0, nums, ops)) else None
  {
    nums, ops := nums0 + [num0], ops0;
    if ops == [] {
      return true, nums, ops + [ch];
    }
    var tighter := OpPriority(ch, ops[|ops| - 1]);
    if tighter.None? {
      return false, nums, ops;
    }
    if tighter.value {
      return true, nums, ops + [ch];
    }
    while ops != []
      invariant Unwind(nums0 + [num0], ops0, ch) == Unwind(nums, ops, ch)
      decreases |ops|
    {
      tighter := OpPriority(ch, ops[|ops| - 1]);
      if tighter.None? {
        return false, nums, ops;
      }
      if tighter.value {
        break;
      }
      var op := ops[|ops| - 1];
      ops := ops[..|ops| - 1];
      var next := OpOnStack(nums, op);
      if next.None? {
        return false, nums, ops;
      }
      nums := next.value;
    }
    return true, nums, ops + [ch];
  }

  /** The search for the bracket closing the one at `index`; None reads past the end of the text. */
  method FindClosing(input: string, index: nat) returns (r: Option<nat>)
    requires index < |input| && input[index] == '('
    ensures r == Later(Closing(input[index + 1..], 1), index + 1)
  {
    hide Closing;
    var ch, pos, depth := input[index], index, 1;
    while ch != ')' || depth > 0
      invariant index <= pos < |input| && depth >= 0 && (depth == 0 ==> ch == ')' && pos > index)
      invariant depth > 0 ==> Closing(input[index + 1..], 1) == Later(Closing(input[pos + 1..], depth), pos - index)
      invariant depth == 0 ==> Closing(input[index + 1..], 1) == Some(pos - index - 1)
      decreases |input| - pos
    {
      pos := pos + 1;
      if depth > 0 {
        ClosingAt(input, pos, depth);
      }
      if pos >= |input| {
        return None;
      }
      ch := input[pos];
      if ch == ')' {
        depth := depth - 1;
      }
      if ch == '(' {
        depth := depth + 1;
      }
    }
    return Some(pos);
  }

  lemma {:induction false} CalcAtEnd(input: string, st: State)
    requires Scan(input, State(0, [], [])) == Scan(input[|input|..], st)
    ensures Calc(input) ==
      var nums := Drain(st.nums, st.ops);
      if nums.None? || nums.value == [] then None else Some(nums.value[|nums.value| - 1])
  {
  }

  lemma {:induction false} CalcFails(input: string)
    requires Scan(input, State(0, [], [])) == None
    ensures Calc(input) == None
  {
  }

  method CalculateInput(input: string) returns (r: Option<int>)
    ensures r == Calc(input)
    decreases |input|
  {
    hide Scan, Calc, Closing, AtOperator;
    var nums: seq<int>, ops: seq<char>, num, index := [], [], 0, 0;
    assert input[0..] == input;
    while index < |input|
      invariant 0 <= index <= |input|
      invariant Scan(input, State(0, [], [])) == Scan(input[index..], State(num, nums, ops))
    {
      var ch := input[index];
      if ch != '(' {
        ScanChar(input, index, State(num, nums, ops));
      } else {
        ScanBracket(input, index, State(num, nums, ops));
      }
      if ch == ' ' {
      } else if IsDigit(ch) {
        num := num * 10 + Digit(ch);
        if index == |input| - 1 {
          nums := nums + [num];
        }
      } else if ch == '(' {
        var found := FindClosing(input, index);
        if found.None? {
          CalcFails(input);
          return None;
        }
        var pos := found.value;
        var sub := CalculateInput(input[index + 1..pos]);
        if sub.None? {
          CalcFails(input);
          return None;
        }
        num := sub.value;
        index := pos;
        if index == |input| - 1 {
          nums := nums + [num];
        }
      } else {
        var ok;
        ok, nums, ops := PushOperator(num, nums, ops, ch);
        if !ok {
          CalcFails(input);
          return None;
        }
        num := 0;
      }
      index := index + 1;
    }
    CalcAtEnd(input, State(num, nums, ops));
    ghost var nums0, ops0 := nums, ops;
    while ops != []
      invariant Drain(nums0, ops0) == Drain(nums, ops)
      decreases |ops|
    {
      var op := ops[|ops| - 1];
      ops := ops[..|ops| - 1];
      var next := OpOnStack(nums, op);
      if next.None? {
        return None;
      }
      nums := next.value;
    }
    return if nums == [] then None else Some(nums[|nums| - 1]);
  }
}
