/** The two-stack evaluator returns the value of the expression whose text it reads. */
module StackCalculatorMeaning {
  import opened Basics
  import opened Expression
  import opened StackCalculator

  lemma {:induction false} ScanSpaces(n: nat, rest: string, st: State)
    ensures Scan(Spaces(n) + rest, st) == Scan(rest, st)
  {
    if n == 0 {
      assert Spaces(n) + rest == rest;
    } else {
      assert (Spaces(n) + rest)[1..] == Spaces(n - 1) + rest;
      ScanSpaces(n - 1, rest, st);
    }
  }

  lemma {:induction false} ScanDigits(digits: string, rest: string, st: State)
    requires digits != [] && forall c :: c in digits ==> IsDigit(c)
    ensures var num := Decimal(st.num, digits);
      Scan(digits + rest, st) == Scan(rest, State(num, Pushed(num, st.nums, rest), st.ops))
    decreases |digits|
  {
    var s, num := digits + rest, st.num * 10 + Digit(digits[0]);
    assert s[0] == digits[0] && s[1..] == digits[1..] + rest;
    assert Scan(s, st) == Scan(s[1..], State(num, Pushed(num, st.nums, s[1..]), st.ops));
    if |digits| == 1 {
      assert s[1..] == rest;
    } else {
      ScanDigits(digits[1..], rest, State(num, st.nums, st.ops));
    }
  }

  // ----- the bracket search skips balanced texts

  lemma {:induction false} ClosingPlain(s: string, tail: string, depth: nat)
    requires depth > 0 && '(' !in s && ')' !in s
    ensures Closing(s + tail, depth) == Later(Closing(tail, depth), |s|)
    decreases |s|
  {
    if s == [] {
      assert s + tail == tail;
    } else {
      assert (s + tail)[1..] == s[1..] + tail;
      ClosingPlain(s[1..], tail, depth);
    }
  }

  lemma {:induction false} SpacesPlain(n: nat)
    ensures '(' !in Spaces(n) && ')' !in Spaces(n)
  {
    if n > 0 {
      SpacesPlain(n - 1);
    }
  }

  lemma ClosingSign(pad: nat, op: char, tail: string, depth: nat)
    requires depth > 0 && op != '(' && op != ')'
    ensures Closing(Spaces(pad) + ([op] + tail), depth) == Later(Closing(tail, depth), pad + 1)
  {
    SpacesPlain(pad);
    SpacesLength(pad);
    assert Spaces(pad) + ([op] + tail) == (Spaces(pad) + [op]) + tail;
    ClosingPlain(Spaces(pad) + [op], tail, depth);
  }

  lemma {:induction false} ClosingFactor(f: Factor, tail: string, depth: nat)
    requires FactorOk(f) && depth > 0
    ensures Closing(FactorText(f) + tail, depth) == Later(Closing(tail, depth), |FactorText(f)|)
    decreases f
  {
    SpacesPlain(f.pad);
    SpacesLength(f.pad);
    match f
    case Number(pad, digits) =>
      ClosingPlain(Spaces(pad) + digits, tail, depth);
    case Group(pad, e) =>
      var inner := ExprText(e) + ([')'] + tail);
      FactorTail(f, tail);
      ClosingPlain(Spaces(pad), ['('] + inner, depth);
      Rest('(', inner);
      Rest(')', tail);
      ClosingExpr(e, [')'] + tail, depth + 1);
  }

  lemma {:induction false} ClosingTerm(t: Term, tail: string, depth: nat)
    requires TermOk(t) && depth > 0
    ensures Closing(TermText(t) + tail, depth) == Later(Closing(tail, depth), |TermText(t)|)
    decreases t
  {
    match t
    case One(f) =>
      ClosingFactor(f, tail, depth);
    case Mul(u, pad, op, f) =>
      var rest := Spaces(pad) + ([op] + (FactorText(f) + tail));
      TermTail(t, tail);
      ClosingTerm(u, rest, depth);
      ClosingSign(pad, op, FactorText(f) + tail, depth);
      ClosingFactor(f, tail, depth);
  }

  lemma Laters(pos: Option<nat>, m: nat, n: nat)
    ensures Later(Later(pos, m), n) == Later(pos, m + n)
  {
  }

  lemma {:induction false} ClosingExpr(e: Expr, tail: string, depth: nat)
    requires ExprOk(e) && depth > 0
    ensures Closing(ExprText(e) + tail, depth) == Later(Closing(tail, depth), |ExprText(e)|)
    decreases e
  {
    match e
    case First(t) =>
      ClosingTerm(t, tail, depth);
    case Neg(pad, t) =>
      NegTail(e, tail);
      ClosingSign(pad, '-', TermText(t) + tail, depth);
      ClosingTerm(t, tail, depth);
      Laters(Closing(tail, depth), |TermText(t)|, pad + 1);
    case Add(d, pad, op, t) =>
      var rest := Spaces(pad) + ([op] + (TermText(t) + tail));
      AddTail(e, tail);
      ClosingExpr(d, rest, depth);
      ClosingSign(pad, op, TermText(t) + tail, depth);
      ClosingTerm(t, tail, depth);
      Laters(Closing(tail, depth), |TermText(t)|, pad + 1);
      Laters(Closing(tail, depth), |TermText(t)| + (pad + 1), |ExprText(d)|);
  }

  // ----- the stacks while a term or an expression is read: its last operator is still to be applied

  ghost predicate TermReady(t: Term)
    requires TermOk(t)
  {
    match t
    case One(f) => FactorValue(f).Some?
    case Mul(u, _, _, f) => TermValue(u).Some? && FactorValue(f).Some?
  }

  ghost function Last(t: Term): int
    requires TermOk(t) && TermReady(t)
  {
    FactorValue(t.f).value
  }

  ghost function TermNums(t: Term, nums: seq<int>): seq<int>
    requires TermOk(t) && TermReady(t)
  {
    if t.One? then nums else nums + [TermValue(t.t).value]
  }

  ghost predicate ExprReady(e: Expr)
    requires ExprOk(e)
  {
    TermReady(e.t) && (e.Add? ==> ExprValue(e.e).Some?)
  }

  lemma ValueIsReady(e: Expr)
    requires ExprOk(e) && ExprValue(e).Some?
    ensures ExprReady(e)
  {
    assert TermValue(e.t).Some?;
  }

  ghost function BaseNums(e: Expr): seq<int>
    requires ExprOk(e) && ExprReady(e)
  {
    match e
    case First(_) => []
    case Neg(_, _) => [0]
    case Add(d, _, _, _) => [ExprValue(d).value]
  }

  function BaseOps(e: Expr): seq<char> {
    match e
    case First(_) => []
    case Neg(_, _) => ['-']
    case Add(_, _, op, _) => [op]
  }

  predicate AddLevel(ops: seq<char>) {
    ops == [] || IsAddOp(ops[|ops| - 1])
  }

  lemma ApplyLast(nums: seq<int>, a: int, b: int, ops: seq<char>, op: char)
    ensures var r := Calculate(a, op, b);
      OpOnStack(nums + [a] + [b], op) == if r.None? then None else Some(nums + [r.value])
    ensures (ops + [op])[..|ops + [op]| - 1] == ops
  {
    var all := nums + [a] + [b];
    assert all[..|all| - 2] == nums;
  }

  /** A second multiplicative operator first applies the one before it, and nothing else. */
  lemma {:induction false} AtMulOp(t: Term, op: char, nums: seq<int>, ops: seq<char>)
    requires TermOk(t) && TermReady(t) && IsMulOp(op) && AddLevel(ops)
    ensures AtOperator(op, State(Last(t), TermNums(t, nums), TermOps(t, ops))) ==
      if TermValue(t).None? then None else Some(State(0, nums + [TermValue(t).value], ops + [op]))
  {
    if t.Mul? {
      ApplyLast(nums, TermValue(t.t).value, Last(t), ops, t.op);
    }
    if TermValue(t).Some? {
      assert Unwind(nums + [TermValue(t).value], ops, op) == Some(State(0, nums + [TermValue(t).value], ops));
    }
  }

  /** Applying what waits starts with the multiplication in the last term. */
  lemma {:induction false} DrainTerm(t: Term, nums: seq<int>, ops: seq<char>)
    requires TermOk(t) && TermReady(t)
    ensures Drain(TermNums(t, nums) + [Last(t)], TermOps(t, ops)) ==
      if TermValue(t).None? then None else Drain(nums + [TermValue(t).value], ops)
  {
    if t.Mul? {
      ApplyLast(nums, TermValue(t.t).value, Last(t), ops, t.op);
    }
  }

  lemma {:induction false} DrainOne(a: int, op: char, v: int)
    ensures Drain([a] + [v], [op]) == var r := Calculate(a, op, v); if r.None? then None else Some([r.value])
  {
    ApplyLast([], a, v, [], op);
    assert [a] + [v] == [] + [a] + [v] && [op] == [] + [op];
    var r := Calculate(a, op, v);
    if r.Some? {
      assert [] + [r.value] == [r.value];
      assert Drain([r.value], []) == Some([r.value]);
    }
  }

  lemma {:induction false} DrainBase(e: Expr, v: int)
    requires ExprOk(e) && ExprReady(e) && TermValue(e.t) == Some(v)
    ensures Drain(BaseNums(e) + [v], BaseOps(e)) == if ExprValue(e).None? then None else Some([ExprValue(e).value])
  {
    match e
    case First(_) =>
      assert [] + [v] == [v];
    case Neg(_, _) =>
      DrainOne(0, '-', v);
    case Add(d, _, op, _) =>
      DrainOne(ExprValue(d).value, op, v);
  }

  /** Applying everything that waits gives the value of the expression. */
  lemma {:induction false} DrainExpr(e: Expr)
    requires ExprOk(e) && ExprReady(e)
    ensures var nums, ops := TermNums(e.t, BaseNums(e)) + [Last(e.t)], TermOps(e.t, BaseOps(e));
      Drain(nums, ops) == if ExprValue(e).None? then None else Some([ExprValue(e).value])
  {
    DrainTerm(e.t, BaseNums(e), BaseOps(e));
    if TermValue(e.t).Some? {
      DrainBase(e, TermValue(e.t).value);
    }
  }

  /** An additive operator applies everything, as the end of the text does. */
  lemma {:induction false} UnwindDrains(nums: seq<int>, ops: seq<char>, ch: char)
    requires IsAddOp(ch) && forall c :: c in ops ==> IsAddOp(c) || IsMulOp(c)
    ensures Unwind(nums, ops, ch) == if Drain(nums, ops).None? then None else Some(State(0, Drain(nums, ops).value, []))
    decreases |ops|
  {
    if ops != [] {
      var r := OpOnStack(nums, ops[|ops| - 1]);
      if r.Some? {
        UnwindDrains(r.value, ops[..|ops| - 1], ch);
      }
    }
  }

  lemma {:induction false} AtAddOp(e: Expr, op: char)
    requires ExprOk(e) && ExprReady(e) && IsAddOp(op)
    ensures AtOperator(op, State(Last(e.t), TermNums(e.t, BaseNums(e)), TermOps(e.t, BaseOps(e)))) ==
      if ExprValue(e).None? then None else Some(State(0, [ExprValue(e).value], [op]))
  {
    DrainExpr(e);
    UnwindDrains(TermNums(e.t, BaseNums(e)) + [Last(e.t)], TermOps(e.t, BaseOps(e)), op);
    assert [] + [op] == [op];
  }

  // ----- reading a text

  lemma {:induction false} ScanGroup(inner: string, rest: string, st: State)
    requires Closing(inner + ([')'] + rest), 1) == Some(|inner|)
    ensures var num := Calc(inner);
      Scan(['('] + (inner + ([')'] + rest)), st) ==
        if num.None? then None else Scan(rest, State(num.value, Pushed(num.value, st.nums, rest), st.ops))
  {
    var s := ['('] + (inner + ([')'] + rest));
    assert s[0..] == s && s[1..] == inner + ([')'] + rest);
    assert s[1..|inner| + 1] == inner && s[|inner| + 2..] == rest;
    ScanBracket(s, 0, st);
  }

  lemma ScanOperator(op: char, rest: string, st: State)
    requires IsAddOp(op) || IsMulOp(op)
    ensures Scan([op] + rest, st) == if AtOperator(op, st).None? then None else Scan(rest, AtOperator(op, st).value)
  {
    Rest(op, rest);
  }

  lemma {:induction false} ScanFactor(f: Factor, rest: string, nums: seq<int>, ops: seq<char>)
    requires FactorOk(f)
    ensures Scan(FactorText(f) + rest, State(0, nums, ops)) ==
      if FactorValue(f).None? then None
      else Scan(rest, State(FactorValue(f).value, Pushed(FactorValue(f).value, nums, rest), ops))
    decreases f, 0
  {
    match f
    case Number(pad, digits) =>
      FactorTail(f, rest);
      ScanSpaces(pad, digits + rest, State(0, nums, ops));
      ScanDigits(digits, rest, State(0, nums, ops));
    case Group(pad, e) =>
      var s := ['('] + (ExprText(e) + ([')'] + rest));
      FactorTail(f, rest);
      ScanSpaces(pad, s, State(0, nums, ops));
      ClosingExpr(e, [')'] + rest, 1);
      Rest(')', rest);
      ScanGroup(ExprText(e), rest, State(0, nums, ops));
      CalcText(e);
  }

  lemma {:induction false} ScanTerm(t: Term, rest: string, nums: seq<int>, ops: seq<char>)
    requires TermOk(t) && AddLevel(ops)
    ensures Scan(TermText(t) + rest, State(0, nums, ops)) ==
      if !TermReady(t) then None
      else Scan(rest, State(Last(t), Pushed(Last(t), TermNums(t, nums), rest), TermOps(t, ops)))
    decreases t, 0
  {
    match t
    case One(f) =>
      ScanFactor(f, rest, nums, ops);
    case Mul(u, pad, op, f) =>
      var s := [op] + (FactorText(f) + rest);
      TermTail(t, rest);
      ScanTerm(u, Spaces(pad) + s, nums, ops);
      if TermReady(u) {
        ScanSpaces(pad, s, State(Last(u), TermNums(u, nums), TermOps(u, ops)));
        ScanOperator(op, FactorText(f) + rest, State(Last(u), TermNums(u, nums), TermOps(u, ops)));
        AtMulOp(u, op, nums, ops);
        if TermValue(u).Some? {
          ScanFactor(f, rest, nums + [TermValue(u).value], ops + [op]);
        }
      }
  }

  lemma {:induction false} ScanSign(e: Expr, pad: nat, op: char, rest: string)
    requires ExprOk(e) && ExprReady(e) && IsAddOp(op)
    ensures Scan(Spaces(pad) + ([op] + rest), State(Last(e.t), TermNums(e.t, BaseNums(e)), TermOps(e.t, BaseOps(e)))) ==
      if ExprValue(e).None? then None else Scan(rest, State(0, [ExprValue(e).value], [op]))
  {
    var st := State(Last(e.t), TermNums(e.t, BaseNums(e)), TermOps(e.t, BaseOps(e)));
    ScanSpaces(pad, [op] + rest, st);
    ScanOperator(op, rest, st);
    AtAddOp(e, op);
  }

  lemma {:induction false} ScanExpr(e: Expr, rest: string)
    requires ExprOk(e)
    ensures Scan(ExprText(e) + rest, State(0, [], [])) ==
      if !ExprReady(e) then None
      else Scan(rest, State(Last(e.t), Pushed(Last(e.t), TermNums(e.t, BaseNums(e)), rest), TermOps(e.t, BaseOps(e))))
    decreases e, 0
  {
    match e
    case First(t) =>
      ScanTerm(t, rest, [], []);
    case Neg(pad, t) =>
      var s := ['-'] + (TermText(t) + rest);
      NegTail(e, rest);
      ScanSpaces(pad, s, State(0, [], []));
      ScanOperator('-', TermText(t) + rest, State(0, [], []));
      assert [] + [0] == [0] && [] + ['-'] == ['-'];
      ScanTerm(t, rest, [0], ['-']);
    case Add(d, pad, op, t) =>
      var s := [op] + (TermText(t) + rest);
      AddTail(e, rest);
      ScanExpr(d, Spaces(pad) + s);
      if ExprReady(d) {
        ScanSign(d, pad, op, TermText(t) + rest);
        if ExprValue(d).Some? {
          ScanTerm(t, rest, [ExprValue(d).value], [op]);
        }
      } else if ExprValue(d).Some? {
        ValueIsReady(d);
      }
  }

  /** Meaning: at every nesting depth, the evaluator's answer is the value of the printed tree, and it
      fails exactly when that tree divides by zero. */
  lemma {:induction false} CalcText(e: Expr)
    requires ExprOk(e)
    ensures Calc(ExprText(e)) == ExprValue(e)
    decreases e, 1
  {
    assert ExprText(e) + [] == ExprText(e);
    ScanExpr(e, []);
    if ExprReady(e) {
      DrainExpr(e);
    }
  }

  // ----- beyond the grammar

  /** An additive operator at the end misses its right operand; the value before it takes that place,
      and 0 takes its own. */
  lemma {:induction false} TrailingOperator(e: Expr, op: char)
    requires ExprOk(e) && ExprValue(e).Some? && IsAddOp(op)
    ensures Calc(ExprText(e) + [op]) == Calculate(0, op, ExprValue(e).value)
  {
    var v := ExprValue(e).value;
    ValueIsReady(e);
    ScanExpr(e, [op]);
    assert Spaces(0) + ([op] + []) == [op];
    ScanSign(e, 0, op, []);
    DropsOne(v, op);
  }

  /** Spaces at the end keep the last operand from being pushed: behind an operator the value before it
      takes its place, and without one nothing is left to answer. */
  lemma {:induction false} TrailingSpaces(e: Expr, n: nat)
    requires ExprOk(e) && n > 0 && ExprReady(e) && e.t.One? && !e.Neg?
    ensures Calc(ExprText(e) + Spaces(n)) == if e.First? then None else Calculate(0, e.op, ExprValue(e.e).value)
  {
    SpacesLength(n);
    assert Spaces(n) + [] == Spaces(n);
    ScanExpr(e, Spaces(n));
    ScanSpaces(n, [], State(Last(e.t), BaseNums(e), BaseOps(e)));
    if e.Add? {
      DropsOne(ExprValue(e.e).value, e.op);
    }
  }

  lemma {:induction false} DropsOne(v: int, op: char)
    ensures Drain([v], [op]) == var r := Calculate(0, op, v); if r.None? then None else Some([r.value])
  {
    var r := Calculate(0, op, v);
    if r.Some? {
      assert [] + [r.value] == [r.value] && [op][..0] == [];
      assert Drain([r.value], []) == Some([r.value]);
    }
  }

  predicate Known(ops: seq<char>) {
    forall c :: c in ops ==> IsMulOp(c) || IsAddOp(c)
  }

  predicate Clean(s: string) {
    forall c :: c in s ==> IsDigit(c) || IsMulOp(c) || IsAddOp(c) || c in " ()"
  }

  lemma {:induction false} AppliedIsKnown(nums: seq<int>, op: char)
    requires nums != [] && OpOnStack(nums, op).Some?
    ensures OpOnStack(nums, op).value != [] && (IsMulOp(op) || IsAddOp(op))
  {
  }

  lemma KnownSplit(ops: seq<char>)
    requires ops != []
    ensures Known(ops) <==> Known(ops[..|ops| - 1]) && (IsMulOp(ops[|ops| - 1]) || IsAddOp(ops[|ops| - 1]))
  {
    assert ops == ops[..|ops| - 1] + [ops[|ops| - 1]];
  }

  lemma {:induction false} DrainedIsKnown(nums: seq<int>, ops: seq<char>)
    requires nums != [] && Drain(nums, ops).Some?
    ensures Known(ops)
    decreases |ops|
  {
    if ops != [] {
      AppliedIsKnown(nums, ops[|ops| - 1]);
      DrainedIsKnown(OpOnStack(nums, ops[|ops| - 1]).value, ops[..|ops| - 1]);
      KnownSplit(ops);
    }
  }

  lemma {:induction false} UnwoundIsKnown(nums: seq<int>, ops: seq<char>, ch: char)
    requires nums != [] && Unwind(nums, ops, ch).Some?
    ensures var st := Unwind(nums, ops, ch).value; st.nums != [] && (Known(st.ops) ==> Known(ops))
    decreases |ops|
  {
    if ops != [] {
      var top := ops[|ops| - 1];
      if !OpPriority(ch, top).value {
        AppliedIsKnown(nums, top);
        UnwoundIsKnown(OpOnStack(nums, top).value, ops[..|ops| - 1], ch);
        KnownSplit(ops);
      }
    }
  }

  lemma {:induction false} OperatorIsKnown(ch: char, st: State)
    requires AtOperator(ch, st).Some?
    ensures var st' := AtOperator(ch, st).value;
      st'.nums != [] && (Known(st'.ops) ==> Known(st.ops) && (IsMulOp(ch) || IsAddOp(ch)))
  {
    UnwoundIsKnown(st.nums + [st.num], st.ops, ch);
    var ops := Unwind(st.nums + [st.num], st.ops, ch).value.ops;
    assert (ops + [ch])[..|ops|] == ops;
    KnownSplit(ops + [ch]);
  }

  lemma {:induction false} ClosesAtBracket(s: string, depth: nat)
    requires depth > 0 && Closing(s, depth).Some?
    ensures s[Closing(s, depth).value] == ')'
  {
    if !(s[0] == ')' && depth == 1) {
      ClosesAtBracket(s[1..], if s[0] == ')' then depth - 1 else if s[0] == '(' then depth + 1 else depth);
    }
  }

  /** What was read before is clean if every operator that waits in the end can be applied. */
  lemma {:induction false} ScannedIsClean(s: string, st: State)
    requires Scan(s, st).Some? && (st.ops != [] ==> st.nums != [])
    ensures var end := Scan(s, st).value;
      (end.ops != [] ==> end.nums != []) && (Known(end.ops) ==> Known(st.ops) && Clean(s))
    decreases |s|, 0
  {
    if s != [] {
      assert s == [s[0]] + s[1..];
      if s[0] == ' ' {
        ScannedIsClean(s[1..], st);
      } else if IsDigit(s[0]) {
        var num := st.num * 10 + Digit(s[0]);
        ScannedIsClean(s[1..], State(num, Pushed(num, st.nums, s[1..]), st.ops));
      } else if s[0] == '(' {
        var pos := Closing(s[1..], 1).value;
        var inner, rest := s[1..][..pos], s[1..][pos + 1..];
        ClosesAtBracket(s[1..], 1);
        assert s[1..] == inner + [')'] + rest;
        AnsweredTextIsClean(inner);
        var num := Calc(inner).value;
        ScannedIsClean(rest, State(num, Pushed(num, st.nums, rest), st.ops));
      } else {
        OperatorIsKnown(s[0], st);
        ScannedIsClean(s[1..], AtOperator(s[0], st).value);
      }
    }
  }

  /** On every text, well-formed or not: an answer means that every character is a digit, an operator, a
      space or a bracket, inside brackets too. */
  lemma {:induction false} AnsweredTextIsClean(s: string)
    requires Calc(s).Some?
    ensures Clean(s)
    decreases |s|, 1
  {
    ScannedIsClean(s, State(0, [], []));
    var end := Scan(s, State(0, [], [])).value;
    if end.ops != [] {
      DrainedIsKnown(end.nums, end.ops);
    }
  }
}
