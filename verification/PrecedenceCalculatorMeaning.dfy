/** Which texts the table-driven evaluator answers, and with what. */
module PrecedenceCalculatorMeaning {
  import opened Basics
  import opened Expression
  import opened PrecedenceCalculator

  // ----- single steps of the loop

  lemma Table(theta1: char, theta2: char)
    ensures var p := GetPriority(theta1, theta2);
      && (p == '<' ==> theta2 != ')' && theta2 != '#')
      && (p == '=' ==> (theta1 == '(' && theta2 == ')') || (theta1 == '#' && theta2 == '#'))
      && (p == '>' ==> theta1 != '(' && theta1 != '#')
      && (p !in {'<', '=', '>'} ==> (theta1 == '(' && theta2 == '#') || (theta1 == '#' && theta2 == ')') || theta1 == ')')
  {
    assert GetIndex(theta1) in {0, 1, 2, 3, 4, 5, 6};
    assert GetIndex(theta2) in {0, 1, 2, 3, 4, 5, 6};
  }

  predicate IsBracket(c: char) {
    c == '#' || c == '('
  }

  /** The precedences: brackets open a level, multiplication binds tighter, equal levels go left first. */
  lemma {:induction false} Precedences(theta1: char, theta2: char)
    ensures var p, ends := GetPriority(theta1, theta2), IsAddOp(theta2) || theta2 == ')' || theta2 == '#';
      && ((IsBracket(theta1) || IsAddOp(theta1)) && IsMulOp(theta2) ==> p == '<')
      && (IsBracket(theta1) && IsAddOp(theta2) ==> p == '<')
      && ((IsBracket(theta1) || IsAddOp(theta1) || IsMulOp(theta1)) && theta2 == '(' ==> p == '<')
      && (theta1 == '(' && theta2 == ')' ==> p == '=')
      && (IsAddOp(theta1) && ends ==> p == '>')
      && (IsMulOp(theta1) && (ends || IsMulOp(theta2)) ==> p == '>')
  {
  }

  /** A character without a row of its own is looked up as '+'. */
  lemma {:induction false} OtherIsPlus(theta: char, other: char)
    requires theta !in "+-*/()#"
    ensures GetPriority(theta, other) == GetPriority('+', other) && GetPriority(other, theta) == GetPriority(other, '+')
  {
  }

  predicate AtOperator(s: string, opter: seq<char>) {
    s != [] && opter != [] && !IsDigit(s[0]) && !(s[0] == '#' && Top(opter) == '#')
  }

  /** The operator stack keeps its '#' at the bottom. */
  lemma OnBottom(ops: seq<char>, c: char)
    ensures ['#'] + ops + [c] == ['#'] + (ops + [c]) && Pop(ops + [c]) == ops && Top(ops + [c]) == c
    ensures if ops == [] then Top(['#'] + ops) == '#' else Top(['#'] + ops) == Top(ops) && Pop(['#'] + ops) == ['#'] + Pop(ops)
  {
  }

  lemma RunPush<V>(arith: Arithmetic<V>, s: string, opter: seq<char>, opval: seq<V>, counter: nat)
    requires AtOperator(s, opter) && GetPriority(Top(opter), s[0]) == '<'
    ensures Run(arith, s, opter, opval, counter) == Run(arith, s[1..], opter + [s[0]], opval, 0)
  {
  }

  lemma RunPop<V>(arith: Arithmetic<V>, s: string, opter: seq<char>, opval: seq<V>, counter: nat)
    requires AtOperator(s, opter) && GetPriority(Top(opter), s[0]) == '='
    ensures Run(arith, s, opter, opval, counter) == Run(arith, s[1..], Pop(opter), opval, 0)
  {
  }

  lemma {:induction false} RunApply<V>(arith: Arithmetic<V>, s: string, opter: seq<char>, opval: seq<V>, counter: nat)
    requires AtOperator(s, opter) && GetPriority(Top(opter), s[0]) == '>'
    ensures Run(arith, s, opter, opval, counter) ==
      var next := Applied(arith, opval, Top(opter)); if next.None? then Undefined else Run(arith, s, Pop(opter), next.value, 0)
  {
  }

  lemma RunDiverges<V>(arith: Arithmetic<V>, s: string, opter: seq<char>, opval: seq<V>, counter: nat)
    requires AtOperator(s, opter) && GetPriority(Top(opter), s[0]) !in {'<', '=', '>'}
    ensures Run(arith, s, opter, opval, counter) == Diverges
  {
  }

  // ----- conservation: one value is left for each number beyond the operators

  /** Numbers and operators up to the first '#'; every other character counts as an operator. */
  function Numbers(s: string, counter: nat): nat {
    if s == [] || s[0] == '#' then 0
    else if IsDigit(s[0]) then (if counter == 1 then 0 else 1) + Numbers(s[1..], 1)
    else Numbers(s[1..], 0)
  }

  predicate IsOperator(c: char) {
    !IsDigit(c) && c != '(' && c != ')' && c != '#'
  }

  function Operators(s: string): nat {
    if s == [] || s[0] == '#' then 0 else (if IsOperator(s[0]) then 1 else 0) + Operators(s[1..])
  }

  function Waiting(ops: seq<char>): nat {
    if ops == [] then 0 else (if IsOperator(ops[|ops| - 1]) then 1 else 0) + Waiting(ops[..|ops| - 1])
  }

  function Surplus(s: string, counter: nat): int {
    Numbers(s, counter) - Operators(s)
  }

  ghost predicate Leaves<V>(o: Outcome<V>, n: int) {
    o.Answer? ==> o.opter == ['#'] && |o.opval| == n >= 1
  }

  /** For every text: the values left in the end are the numbers less the operators. */
  lemma {:induction false} Conservation<V>(arith: Arithmetic<V>, s: string, ops: seq<char>, opval: seq<V>, counter: nat)
    requires '#' !in ops && ')' !in ops && counter <= 1
    ensures Leaves(Run(arith, s, ['#'] + ops, opval, counter), |opval| + Surplus(s, counter) - Waiting(ops))
    decreases |s|, |ops|
  {
    if s != [] {
      var opter, c := ['#'] + ops, s[0];
      var top := Top(opter);
      if c == '#' && top == '#' {
        assert ops == [];
      } else if IsDigit(c) {
        var next := ReadDigit(arith, opval, counter, c);
        if next.Some? {
          Conservation(arith, s[1..], ops, next.value, 1);
        }
      } else {
        ConservationAtOperator(arith, s, ops, opval, counter);
      }
    }
  }

  lemma {:induction false} ConservationAtOperator<V>(arith: Arithmetic<V>, s: string, ops: seq<char>, opval: seq<V>, counter: nat)
    requires '#' !in ops && ')' !in ops && counter <= 1 && AtOperator(s, ['#'] + ops)
    ensures Leaves(Run(arith, s, ['#'] + ops, opval, counter), |opval| + Surplus(s, counter) - Waiting(ops))
    decreases |s|, |ops|, 0
  {
    hide Run, GetPriority;
    var opter, c := ['#'] + ops, s[0];
    OnBottom(ops, c);
    Table(Top(opter), c);
    if GetPriority(Top(opter), c) == '<' {
      RunPush(arith, s, opter, opval, counter);
      Conservation(arith, s[1..], ops + [c], opval, 0);
    } else if GetPriority(Top(opter), c) == '=' {
      RunPop(arith, s, opter, opval, counter);
      Conservation(arith, s[1..], Pop(ops), opval, 0);
    } else if GetPriority(Top(opter), c) == '>' {
      RunApply(arith, s, opter, opval, counter);
      var next := Applied(arith, opval, Top(opter));
      if next.Some? {
        Conservation(arith, s, Pop(ops), next.value, 0);
      }
    } else {
      RunDiverges(arith, s, opter, opval, counter);
    }
  }

  // ----- brackets decide whether the loop ends

  /** No bracket before the first '#' is unmatched, when `depth` brackets are open already. */
  predicate Matched(s: string, depth: nat) {
    if s == [] then true
    else if s[0] == '#' then depth == 0
    else if s[0] == '(' then Matched(s[1..], depth + 1)
    else if s[0] == ')' then depth > 0 && Matched(s[1..], depth - 1)
    else Matched(s[1..], depth)
  }

  function Open(ops: seq<char>): nat {
    if ops == [] then 0 else Open(Pop(ops)) + if Top(ops) == '(' then 1 else 0
  }

  ghost predicate EndsIff<V>(o: Outcome<V>, matched: bool) {
    !o.Undefined? ==> (o.Diverges? <==> !matched)
  }

  /** For every text: unless the run becomes undefined, it meets a '0' entry and never ends exactly if a
      bracket is unmatched. */
  lemma {:induction false} DivergesIff<V>(arith: Arithmetic<V>, s: string, ops: seq<char>, opval: seq<V>, counter: nat)
    requires '#' !in ops && ')' !in ops
    ensures EndsIff(Run(arith, s, ['#'] + ops, opval, counter), Matched(s, Open(ops)))
    decreases |s|, |ops|
  {
    if s != [] {
      var opter, c := ['#'] + ops, s[0];
      if c == '#' && Top(opter) == '#' {
        assert ops == [];
      } else if IsDigit(c) {
        var next := ReadDigit(arith, opval, counter, c);
        if next.Some? {
          DivergesIff(arith, s[1..], ops, next.value, if counter == 1 then 1 else counter + 1);
        }
      } else {
        DivergesIffAtOperator(arith, s, ops, opval, counter);
      }
    }
  }

  lemma {:induction false} DivergesIffAtOperator<V>(arith: Arithmetic<V>, s: string, ops: seq<char>, opval: seq<V>, counter: nat)
    requires '#' !in ops && ')' !in ops && AtOperator(s, ['#'] + ops)
    ensures EndsIff(Run(arith, s, ['#'] + ops, opval, counter), Matched(s, Open(ops)))
    decreases |s|, |ops|, 0
  {
    hide Run, GetPriority;
    var opter, c := ['#'] + ops, s[0];
    OnBottom(ops, c);
    Table(Top(opter), c);
    if GetPriority(Top(opter), c) == '<' {
      RunPush(arith, s, opter, opval, counter);
      DivergesIff(arith, s[1..], ops + [c], opval, 0);
    } else if GetPriority(Top(opter), c) == '=' {
      RunPop(arith, s, opter, opval, counter);
      DivergesIff(arith, s[1..], Pop(ops), opval, 0);
    } else if GetPriority(Top(opter), c) == '>' {
      RunApply(arith, s, opter, opval, counter);
      var next := Applied(arith, opval, Top(opter));
      if next.Some? {
        DivergesIff(arith, s, Pop(ops), next.value, 0);
      }
    } else {
      RunDiverges(arith, s, opter, opval, counter);
    }
  }

  predicate KnownOrOpen(ops: seq<char>) {
    forall c :: c in ops ==> IsMulOp(c) || IsAddOp(c) || c == '('
  }

  /** Up to the first '#' there are digits, operators and brackets only. */
  predicate CleanToEnd(s: string) {
    s == [] || s[0] == '#' ||
    ((IsDigit(s[0]) || IsMulOp(s[0]) || IsAddOp(s[0]) || s[0] == '(' || s[0] == ')') && CleanToEnd(s[1..]))
  }

  /** For every text: an answer means that it is clean, since no other character is ever applied. */
  lemma {:induction false} AnsweredIsClean<V>(arith: Arithmetic<V>, s: string, ops: seq<char>, opval: seq<V>, counter: nat)
    requires '#' !in ops && ')' !in ops && Run(arith, s, ['#'] + ops, opval, counter).Answer?
    ensures KnownOrOpen(ops) && CleanToEnd(s)
    decreases |s|, |ops|
  {
    var opter, c := ['#'] + ops, s[0];
    OnBottom(ops, c);
    if c == '#' && Top(opter) == '#' {
      assert ops == [];
    } else if IsDigit(c) {
      var next := ReadDigit(arith, opval, counter, c);
      AnsweredIsClean(arith, s[1..], ops, next.value, if counter == 1 then 1 else counter + 1);
    } else {
      AnsweredIsCleanAtOperator(arith, s, ops, opval, counter);
    }
  }

  lemma {:induction false} AnsweredIsCleanAtOperator<V>(arith: Arithmetic<V>, s: string, ops: seq<char>, opval: seq<V>, counter: nat)
    requires '#' !in ops && ')' !in ops && AtOperator(s, ['#'] + ops)
    requires Run(arith, s, ['#'] + ops, opval, counter).Answer?
    ensures KnownOrOpen(ops) && CleanToEnd(s)
    decreases |s|, |ops|, 0
  {
    hide Run, GetPriority;
    var opter, c := ['#'] + ops, s[0];
    OnBottom(ops, c);
    Table(Top(opter), c);
    if GetPriority(Top(opter), c) == '<' {
      RunPush(arith, s, opter, opval, counter);
      AnsweredIsClean(arith, s[1..], ops + [c], opval, 0);
      assert c in ops + [c] && forall d :: d in ops ==> d in ops + [c];
    } else if GetPriority(Top(opter), c) == '=' {
      RunPop(arith, s, opter, opval, counter);
      AnsweredIsClean(arith, s[1..], Pop(ops), opval, 0);
      assert ops == Pop(ops) + [Top(ops)];
    } else if GetPriority(Top(opter), c) == '>' {
      RunApply(arith, s, opter, opval, counter);
      AnsweredIsClean(arith, s, Pop(ops), Applied(arith, opval, Top(opter)).value, 0);
      assert ops == Pop(ops) + [Top(ops)];
    } else {
      RunDiverges(arith, s, opter, opval, counter);
    }
  }

  lemma {:induction false} MatchedPlain(s: string, rest: string, depth: nat)
    requires forall c :: c in s ==> c !in "()#"
    ensures Matched(s + rest, depth) == Matched(rest, depth)
    decreases |s|
  {
    if s == [] {
      assert s + rest == rest;
    } else {
      assert s[0] in s && (s + rest)[1..] == s[1..] + rest;
      MatchedPlain(s[1..], rest, depth);
    }
  }

  lemma {:induction false} SpacesArePlain(n: nat)
    ensures forall c :: c in Spaces(n) ==> c == ' '
  {
    if n > 0 {
      SpacesArePlain(n - 1);
    }
  }

  lemma {:induction false} MatchedSign(pad: nat, op: char, rest: string, depth: nat)
    requires IsMulOp(op) || IsAddOp(op)
    ensures Matched(Spaces(pad) + ([op] + rest), depth) == Matched(rest, depth)
  {
    SpacesArePlain(pad);
    MatchedPlain(Spaces(pad), [op] + rest, depth);
    MatchedPlain([op], rest, depth);
  }

  lemma {:induction false} MatchedFactor(f: Factor, rest: string, depth: nat)
    requires FactorOk(f)
    ensures Matched(FactorText(f) + rest, depth) == Matched(rest, depth)
    decreases f
  {
    FactorTail(f, rest);
    SpacesArePlain(f.pad);
    match f
    case Number(pad, digits) =>
      MatchedPlain(Spaces(pad), digits + rest, depth);
      MatchedPlain(digits, rest, depth);
    case Group(pad, e) =>
      var inner := ExprText(e) + ([')'] + rest);
      MatchedPlain(Spaces(pad), ['('] + inner, depth);
      Rest('(', inner);
      MatchedExpr(e, [')'] + rest, depth + 1);
      Rest(')', rest);
  }

  lemma {:induction false} MatchedTerm(t: Term, rest: string, depth: nat)
    requires TermOk(t)
    ensures Matched(TermText(t) + rest, depth) == Matched(rest, depth)
    decreases t
  {
    match t
    case One(f) =>
      MatchedFactor(f, rest, depth);
    case Mul(u, pad, op, f) =>
      TermTail(t, rest);
      MatchedTerm(u, Spaces(pad) + ([op] + (FactorText(f) + rest)), depth);
      MatchedSign(pad, op, FactorText(f) + rest, depth);
      MatchedFactor(f, rest, depth);
  }

  /** A printed expression matches its brackets. */
  lemma {:induction false} MatchedExpr(e: Expr, rest: string, depth: nat)
    requires ExprOk(e)
    ensures Matched(ExprText(e) + rest, depth) == Matched(rest, depth)
    decreases e
  {
    match e
    case First(t) =>
      MatchedTerm(t, rest, depth);
    case Neg(pad, t) =>
      NegTail(e, rest);
      MatchedSign(pad, '-', TermText(t) + rest, depth);
      MatchedTerm(t, rest, depth);
    case Add(d, pad, op, t) =>
      AddTail(e, rest);
      MatchedExpr(d, Spaces(pad) + ([op] + (TermText(t) + rest)), depth);
      MatchedSign(pad, op, TermText(t) + rest, depth);
      MatchedTerm(t, rest, depth);
  }

  // ----- plain expressions: no leading minus and no spaces

  function FactorExtra(f: Factor): nat {
    match f
    case Number(pad, _) => pad
    case Group(pad, e) => pad + ExprExtra(e)
  }

  function TermExtra(t: Term): nat {
    match t
    case One(f) => FactorExtra(f)
    case Mul(u, pad, _, f) => TermExtra(u) + pad + FactorExtra(f)
  }

  /** The leading minuses and the spaces of a text: the evaluator takes each for a binary operator. */
  function ExprExtra(e: Expr): nat {
    match e
    case First(t) => TermExtra(t)
    case Neg(pad, t) => pad + 1 + TermExtra(t)
    case Add(d, pad, _, t) => ExprExtra(d) + pad + TermExtra(t)
  }

  predicate Follows(rest: string) {
    rest != [] && !IsDigit(rest[0])
  }

  lemma {:induction false} DigitsSurplus(digits: string, rest: string, counter: nat)
    requires digits != [] && (forall c :: c in digits ==> IsDigit(c)) && Follows(rest)
    ensures Surplus(digits + rest, counter) == (if counter == 1 then 0 else 1) + Surplus(rest, 0)
    decreases |digits|
  {
    var s := digits + rest;
    assert s[1..] == digits[1..] + rest && s[0] == digits[0] && IsDigit(s[0]);
    assert Surplus(s, counter) == (if counter == 1 then 0 else 1) + Surplus(s[1..], 1);
    if |digits| > 1 {
      DigitsSurplus(digits[1..], rest, 1);
    } else {
      assert digits[1..] + rest == rest;
    }
  }

  lemma {:induction false} SpacesSurplus(n: nat, rest: string)
    ensures Surplus(Spaces(n) + rest, 0) == Surplus(rest, 0) - n
  {
    if n == 0 {
      assert Spaces(n) + rest == rest;
    } else {
      assert (Spaces(n) + rest)[1..] == Spaces(n - 1) + rest;
      SpacesSurplus(n - 1, rest);
    }
  }

  lemma CharSurplus(c: char, rest: string)
    requires !IsDigit(c) && c != '#'
    ensures Surplus([c] + rest, 0) == Surplus(rest, 0) - if IsOperator(c) then 1 else 0
  {
    assert ([c] + rest)[1..] == rest;
  }

  lemma SignSurplus(pad: nat, op: char, rest: string)
    requires IsMulOp(op) || IsAddOp(op)
    ensures Surplus(Spaces(pad) + ([op] + rest), 0) == Surplus(rest, 0) - pad - 1
    ensures Follows(Spaces(pad) + ([op] + rest))
  {
    SpacesSurplus(pad, [op] + rest);
    CharSurplus(op, rest);
  }

  lemma {:induction false} FactorSurplus(f: Factor, rest: string)
    requires FactorOk(f) && Follows(rest)
    ensures Surplus(FactorText(f) + rest, 0) == 1 - FactorExtra(f) + Surplus(rest, 0)
  {
    match f
    case Number(pad, digits) =>
      FactorTail(f, rest);
      SpacesSurplus(pad, digits + rest);
      DigitsSurplus(digits, rest, 0);
    case Group(pad, e) =>
      var inner := ExprText(e) + ([')'] + rest);
      FactorTail(f, rest);
      SpacesSurplus(pad, ['('] + inner);
      CharSurplus('(', inner);
      ExprSurplus(e, [')'] + rest);
      CharSurplus(')', rest);
  }

  lemma {:induction false} TermSurplus(t: Term, rest: string)
    requires TermOk(t) && Follows(rest)
    ensures Surplus(TermText(t) + rest, 0) == 1 - TermExtra(t) + Surplus(rest, 0)
  {
    match t
    case One(f) =>
      FactorSurplus(f, rest);
    case Mul(u, pad, op, f) =>
      var s := Spaces(pad) + ([op] + (FactorText(f) + rest));
      TermTail(t, rest);
      SignSurplus(pad, op, FactorText(f) + rest);
      TermSurplus(u, s);
      FactorSurplus(f, rest);
  }

  lemma {:induction false} ExprSurplus(e: Expr, rest: string)
    requires ExprOk(e) && Follows(rest)
    ensures Surplus(ExprText(e) + rest, 0) == 1 - ExprExtra(e) + Surplus(rest, 0)
  {
    match e
    case First(t) =>
      TermSurplus(t, rest);
    case Neg(pad, t) =>
      NegTail(e, rest);
      SignSurplus(pad, '-', TermText(t) + rest);
      TermSurplus(t, rest);
    case Add(d, pad, op, t) =>
      var s := Spaces(pad) + ([op] + (TermText(t) + rest));
      AddTail(e, rest);
      SignSurplus(pad, op, TermText(t) + rest);
      ExprSurplus(d, s);
      TermSurplus(t, rest);
  }

  // ----- values

  /** The value of a digit sequence read after `value`. */
  function Extended<V>(arith: Arithmetic<V>, value: V, digits: string): V
    requires forall c :: c in digits ==> IsDigit(c)
    decreases |digits|
  {
    if digits == [] then value else Extended(arith, arith.extend(value, Digit(digits[0])), digits[1..])
  }

  ghost function FactorVal<V>(arith: Arithmetic<V>, f: Factor): V
    requires FactorOk(f)
  {
    match f
    case Number(_, digits) => Extended(arith, arith.digit(Digit(digits[0])), digits[1..])
    case Group(_, e) => ExprVal(arith, e)
  }

  ghost function TermVal<V>(arith: Arithmetic<V>, t: Term): V
    requires TermOk(t)
  {
    match t
    case One(f) => FactorVal(arith, f)
    case Mul(u, _, op, f) => arith.operate(TermVal(arith, u), op, FactorVal(arith, f))
  }

  ghost function ExprVal<V>(arith: Arithmetic<V>, e: Expr): V
    requires ExprOk(e)
  {
    match e
    case First(t) => TermVal(arith, t)
    case Neg(_, t) => arith.operate(arith.digit(0), '-', TermVal(arith, t))
    case Add(d, _, op, t) => arith.operate(ExprVal(arith, d), op, TermVal(arith, t))
  }

  // ----- the stacks while a term or an expression is read: its last operator is still to be applied

  ghost function TermVals<V>(arith: Arithmetic<V>, t: Term, opval: seq<V>): seq<V>
    requires TermOk(t)
  {
    (if t.One? then opval else opval + [TermVal(arith, t.t)]) + [FactorVal(arith, t.f)]
  }

  function SumOps(e: Expr, opter: seq<char>): seq<char>
    requires !e.Neg?
  {
    if e.First? then opter else opter + [e.op]
  }

  ghost function SumVals<V>(arith: Arithmetic<V>, e: Expr, opval: seq<V>): seq<V>
    requires ExprOk(e) && !e.Neg?
  {
    if e.First? then opval else opval + [ExprVal(arith, e.e)]
  }

  lemma ApplyWaiting<V>(arith: Arithmetic<V>, opval: seq<V>, a: V, b: V, opter: seq<char>, op: char)
    requires IsMulOp(op) || IsAddOp(op)
    ensures Applied(arith, opval + [a] + [b], op) == Some(opval + [arith.operate(a, op, b)])
    ensures Top(opter + [op]) == op && Pop(opter + [op]) == opter
  {
    assert (opval + [a] + [b])[..|opval + [a] + [b]| - 2] == opval;
  }

  /** Any operator that ends a term first applies the multiplication waiting in it. */
  lemma {:induction false} EndTerm<V>(arith: Arithmetic<V>, t: Term, s: string, opter: seq<char>, opval: seq<V>)
    requires TermOk(t) && opter != []
    requires s != [] && (IsMulOp(s[0]) || IsAddOp(s[0]) || s[0] == ')' || s[0] == '#')
    ensures Run(arith, s, TermOps(t, opter), TermVals(arith, t, opval), 0) == Run(arith, s, opter, opval + [TermVal(arith, t)], 0)
  {
    if t.Mul? {
      ApplyWaiting(arith, opval, TermVal(arith, t.t), FactorVal(arith, t.f), opter, t.op);
      Precedences(t.op, s[0]);
      RunApply(arith, s, TermOps(t, opter), TermVals(arith, t, opval), 0);
    }
  }

  /** Any operator that ends an expression applies everything waiting in it. */
  lemma {:induction false} EndExpr<V>(arith: Arithmetic<V>, e: Expr, s: string, opter: seq<char>, opval: seq<V>)
    requires ExprOk(e) && !e.Neg? && opter != []
    requires s != [] && (IsAddOp(s[0]) || s[0] == ')' || s[0] == '#')
    ensures Run(arith, s, TermOps(e.t, SumOps(e, opter)), TermVals(arith, e.t, SumVals(arith, e, opval)), 0) ==
      Run(arith, s, opter, opval + [ExprVal(arith, e)], 0)
  {
    EndTerm(arith, e.t, s, SumOps(e, opter), SumVals(arith, e, opval));
    if e.Add? {
      ApplyWaiting(arith, opval, ExprVal(arith, e.e), TermVal(arith, e.t), opter, e.op);
      Precedences(e.op, s[0]);
      RunApply(arith, s, SumOps(e, opter), SumVals(arith, e, opval) + [TermVal(arith, e.t)], 0);
    }
  }

  lemma {:induction false} TermThenSign<V>(arith: Arithmetic<V>, t: Term, op: char, tail: string, opter: seq<char>, opval: seq<V>)
    requires TermOk(t) && opter != [] && (IsBracket(Top(opter)) || IsAddOp(Top(opter))) && IsMulOp(op)
    ensures Run(arith, [op] + tail, TermOps(t, opter), TermVals(arith, t, opval), 0) ==
      Run(arith, tail, opter + [op], opval + [TermVal(arith, t)], 0)
    ensures Top(opter + [op]) == op
  {
    Rest(op, tail);
    EndTerm(arith, t, [op] + tail, opter, opval);
    Precedences(Top(opter), op);
    RunPush(arith, [op] + tail, opter, opval + [TermVal(arith, t)], 0);
  }

  lemma {:induction false} ExprThenSign<V>(arith: Arithmetic<V>, e: Expr, op: char, tail: string, opter: seq<char>, opval: seq<V>)
    requires ExprOk(e) && !e.Neg? && opter != [] && IsBracket(Top(opter)) && IsAddOp(op)
    ensures Run(arith, [op] + tail, TermOps(e.t, SumOps(e, opter)), TermVals(arith, e.t, SumVals(arith, e, opval)), 0) ==
      Run(arith, tail, opter + [op], opval + [ExprVal(arith, e)], 0)
    ensures Top(opter + [op]) == op
  {
    Rest(op, tail);
    EndExpr(arith, e, [op] + tail, opter, opval);
    Precedences(Top(opter), op);
    RunPush(arith, [op] + tail, opter, opval + [ExprVal(arith, e)], 0);
  }

  // ----- reading a text

  /** The digits after the first one extend the value on top. */
  lemma {:induction false} RunDigits<V>(arith: Arithmetic<V>, digits: string, rest: string, opter: seq<char>, opval: seq<V>, value: V)
    requires (forall c :: c in digits ==> IsDigit(c)) && Follows(rest) && opter != []
    ensures Run(arith, digits + rest, opter, opval + [value], 1) ==
      Run(arith, rest, opter, opval + [Extended(arith, value, digits)], 0)
    decreases |digits|
  {
    if digits == [] {
      assert digits + rest == rest;
    } else {
      assert (digits + rest)[1..] == digits[1..] + rest;
      assert Pop(opval + [value]) == opval;
      RunDigits(arith, digits[1..], rest, opter, opval, arith.extend(value, Digit(digits[0])));
    }
  }

  lemma {:induction false} RunFactor<V>(arith: Arithmetic<V>, f: Factor, rest: string, opter: seq<char>, opval: seq<V>)
    requires FactorOk(f) && FactorExtra(f) == 0 && Follows(rest)
    requires opter != [] && (IsBracket(Top(opter)) || IsMulOp(Top(opter)) || IsAddOp(Top(opter)))
    ensures Run(arith, FactorText(f) + rest, opter, opval, 0) == Run(arith, rest, opter, opval + [FactorVal(arith, f)], 0)
    decreases f
  {
    hide GetPriority, Extended, Applied;
    match f
    case Number(_, digits) =>
      FactorTail(f, rest);
      assert Spaces(0) + (digits + rest) == digits + rest;
      assert (digits + rest)[1..] == digits[1..] + rest;
      RunDigits(arith, digits[1..], rest, opter, opval, arith.digit(Digit(digits[0])));
    case Group(_, e) =>
      var inner := ExprText(e) + ([')'] + rest);
      FactorTail(f, rest);
      assert Spaces(0) + (['('] + inner) == ['('] + inner;
      Rest('(', inner);
      Precedences(Top(opter), '(');
      RunPush(arith, ['('] + inner, opter, opval, 0);
      var nested := opter + ['('];
      RunExpr(arith, e, [')'] + rest, nested, opval);
      EndExpr(arith, e, [')'] + rest, nested, opval);
      Rest(')', rest);
      Precedences('(', ')');
      RunPop(arith, [')'] + rest, nested, opval + [ExprVal(arith, e)], 0);
      assert Pop(nested) == opter;
  }

  lemma {:induction false} RunTerm<V>(arith: Arithmetic<V>, t: Term, rest: string, opter: seq<char>, opval: seq<V>)
    requires TermOk(t) && TermExtra(t) == 0 && Follows(rest)
    requires opter != [] && (IsBracket(Top(opter)) || IsAddOp(Top(opter)))
    ensures Run(arith, TermText(t) + rest, opter, opval, 0) == Run(arith, rest, TermOps(t, opter), TermVals(arith, t, opval), 0)
    decreases t
  {
    match t
    case One(f) =>
      RunFactor(arith, f, rest, opter, opval);
    case Mul(u, _, op, f) =>
      var s := [op] + (FactorText(f) + rest);
      TermTail(t, rest);
      assert Spaces(0) + s == s;
      RunTerm(arith, u, s, opter, opval);
      TermThenSign(arith, u, op, FactorText(f) + rest, opter, opval);
      RunFactor(arith, f, rest, opter + [op], opval + [TermVal(arith, u)]);
  }

  lemma {:induction false} RunExpr<V>(arith: Arithmetic<V>, e: Expr, rest: string, opter: seq<char>, opval: seq<V>)
    requires ExprOk(e) && ExprExtra(e) == 0 && Follows(rest)
    requires opter != [] && IsBracket(Top(opter))
    ensures Run(arith, ExprText(e) + rest, opter, opval, 0) ==
      Run(arith, rest, TermOps(e.t, SumOps(e, opter)), TermVals(arith, e.t, SumVals(arith, e, opval)), 0)
    decreases e
  {
    match e
    case First(t) =>
      RunTerm(arith, t, rest, opter, opval);
    case Add(d, _, op, t) =>
      var s := [op] + (TermText(t) + rest);
      AddTail(e, rest);
      assert Spaces(0) + s == s;
      RunExpr(arith, d, s, opter, opval);
      ExprThenSign(arith, d, op, TermText(t) + rest, opter, opval);
      RunTerm(arith, t, rest, opter + [op], opval + [ExprVal(arith, d)]);
  }

  /** Meaning, for any arithmetic: a printed expression closed by '#' is answered exactly if it is
      plain, and then with its value and clean stacks; otherwise the run becomes undefined. */
  lemma {:induction false} AnswersPlainText<V>(arith: Arithmetic<V>, e: Expr, unread: string)
    requires ExprOk(e)
    ensures var v := ExprVal(arith, e);
      Run(arith, ExprText(e) + (['#'] + unread), ['#'], [], 0) ==
        if ExprExtra(e) == 0 then Answer(v, unread, ['#'], [v]) else Undefined
  {
    var rest := ['#'] + unread;
    Rest('#', unread);
    if ExprExtra(e) == 0 {
      RunExpr(arith, e, rest, ['#'], []);
      EndExpr(arith, e, rest, ['#'], []);
      assert [] + [ExprVal(arith, e)] == [ExprVal(arith, e)];
    } else {
      assert ['#'] + [] == ['#'];
      Conservation(arith, ExprText(e) + rest, [], [], 0);
      ExprSurplus(e, rest);
      DivergesIff(arith, ExprText(e) + rest, [], [], 0);
      MatchedExpr(e, rest, 0);
    }
  }

  /** An expression with a bracket too many, at its end or its start, makes the loop run forever. */
  lemma {:induction false} UnmatchedDiverges<V>(arith: Arithmetic<V>, e: Expr, unread: string)
    requires ExprOk(e) && ExprExtra(e) == 0
    ensures Run(arith, ExprText(e) + ([')'] + unread), ['#'], [], 0) == Diverges
    ensures Run(arith, ['('] + (ExprText(e) + (['#'] + unread)), ['#'], [], 0) == Diverges
  {
    Rest(')', unread);
    RunExpr(arith, e, [')'] + unread, ['#'], []);
    EndExpr(arith, e, [')'] + unread, ['#'], []);
    RunDiverges(arith, [')'] + unread, ['#'], [] + [ExprVal(arith, e)], 0);
    var inner, nested := ExprText(e) + (['#'] + unread), ['#'] + ['('];
    Rest('(', inner);
    RunPush(arith, ['('] + inner, ['#'], [], 0);
    Rest('#', unread);
    RunExpr(arith, e, ['#'] + unread, nested, []);
    EndExpr(arith, e, ['#'] + unread, nested, []);
    RunDiverges(arith, ['#'] + unread, nested, [] + [ExprVal(arith, e)], 0);
  }

  // ----- the values over the reals; None is a division by zero

  function CalculateReal(b: real, theta: char, a: real): Option<real> {
    match theta
    case '+' => Some(b + a)
    case '-' => Some(b - a)
    case '*' => Some(Times(b, a))
    case '/' => if a == 0.0 then None else Some(Over(b, a))
    case _ => None
  }

  function CombineReal(a: Option<real>, op: char, b: Option<real>): Option<real> {
    if a.Some? && b.Some? then CalculateReal(a.value, op, b.value) else None
  }

  ghost function FactorReal(f: Factor): Option<real>
    requires FactorOk(f)
  {
    match f
    case Number(_, digits) => Some(Decimal(0, digits) as real)
    case Group(_, e) => ExprReal(e)
  }

  ghost function TermReal(t: Term): Option<real>
    requires TermOk(t)
  {
    match t
    case One(f) => FactorReal(f)
    case Mul(u, _, op, f) => CombineReal(TermReal(u), op, FactorReal(f))
  }

  ghost function ExprReal(e: Expr): Option<real>
    requires ExprOk(e)
  {
    match e
    case First(t) => TermReal(t)
    case Neg(_, t) => CombineReal(Some(0.0), '-', TermReal(t))
    case Add(d, _, op, t) => CombineReal(ExprReal(d), op, TermReal(t))
  }

  lemma {:induction false} SumExact(x: Double, y: Double)
    requires x.Num().Some? && y.Num().Some?
    ensures Sum(x, y).Num() == CalculateReal(x.Num().value, '+', y.Num().value)
  {
  }

  lemma {:induction false} DifferenceExact(x: Double, y: Double)
    requires x.Num().Some? && y.Num().Some?
    ensures Sum(x, Minus(y)).Num() == CalculateReal(x.Num().value, '-', y.Num().value)
  {
    assert Minus(y).Num() == Some(-y.Num().value);
  }

  /** Sums, products and ratios outside the reals, as sections 6 and 7 of IEEE 754 have them. */
  lemma {:induction false} SpecialValues(x: Double, y: Double)
    ensures x.NaN? || y.NaN? ==> Sum(x, y) == Product(x, y) == Ratio(x, y) == NaN
    ensures x.Infinity? && y == Minus(x) ==> Sum(x, y) == NaN
    ensures x.Infinity? && y != Minus(x) && !y.NaN? ==> Sum(x, y) == Sum(y, x) == x
    ensures Product(x, y) == Product(y, x)
    ensures x.Infinity? && y.IsZero() ==> Product(x, y) == NaN && Ratio(y, x).IsZero() && Ratio(x, y).Infinity?
    ensures x.Infinity? && !y.IsZero() && !y.NaN? ==> Product(x, y) == if y.IsNegative() then Minus(x) else x
    ensures (x.IsZero() && y.IsZero()) || (x.Infinity? && y.Infinity?) ==> Ratio(x, y) == NaN
    ensures y.IsZero() && !x.IsZero() && !x.NaN? ==> Ratio(x, y).Infinity? && Ratio(x, y) == Minus(Ratio(x, Minus(y)))
    ensures y == Finite(0.0) && x.Finite? && x.value > 0.0 ==> Ratio(x, y) == Infinity(false)
    ensures x.Num().Some? && y.Infinity? ==> Ratio(x, y) == Zero(x.IsNegative() != y.IsNegative())
    ensures x.NegZero? ==> Sum(x, x) == x && Sum(x, Finite(0.0)) == Finite(0.0) && Product(x, x) == Finite(0.0)
  {
    if x.Finite? && y.Finite? {
      TimesCommutes(x.value, y.value);
    } else if x.Num().Some? && y.Num().Some? {
      WithZero(0.0);
    }
  }

  lemma TimesCommutes(x: real, y: real)
    ensures Times(x, y) == Times(y, x)
    ensures Times(-x, y) == -Times(x, y) && (x != 0.0 && y != 0.0 ==> Times(x, y) != 0.0)
  {
  }

  lemma OverNegates(x: real, y: real)
    requires y != 0.0
    ensures Over(-x, y) == -Over(x, y) && (x != 0.0 ==> Over(x, y) != 0.0)
  {
  }

  /** The sign of a product or a ratio, zero or infinite ones included. */
  lemma {:induction false} SignsMultiply(x: Double, y: Double)
    ensures Product(Minus(x), y) == Product(x, Minus(y)) == Minus(Product(x, y))
    ensures Ratio(Minus(x), y) == Minus(Ratio(x, y))
  {
    if x.Finite? && y.Finite? {
      TimesCommutes(x.value, y.value);
      TimesCommutes(y.value, x.value);
      if y.value != 0.0 {
        OverNegates(x.value, y.value);
      }
    }
  }

  lemma WithZero(x: real)
    ensures Times(0.0, x) == 0.0 == Times(x, 0.0)
    ensures x != 0.0 ==> Over(0.0, x) == 0.0
  {
  }

  lemma {:induction false} ProductExact(x: Double, y: Double)
    requires x.Num().Some? && y.Num().Some?
    ensures Product(x, y).Num() == CalculateReal(x.Num().value, '*', y.Num().value)
  {
    hide Times;
    if x.IsZero() {
      WithZero(y.Num().value);
    } else if y.IsZero() {
      WithZero(x.Num().value);
    }
  }

  lemma {:induction false} RatioExact(x: Double, y: Double)
    requires x.Num().Some? && y.Num().Some? && y.Num().value != 0.0
    ensures Ratio(x, y).Num() == CalculateReal(x.Num().value, '/', y.Num().value)
  {
    hide Over;
    assert !y.IsZero() && y.Finite?;
    if x.IsZero() {
      WithZero(y.Num().value);
    }
  }

  /** Where no divisor is zero, whatever the sign of the zeros, the operations are those on reals. */
  lemma {:induction false} OperateExact(b: Double, theta: char, a: Double)
    requires IsMulOp(theta) || IsAddOp(theta)
    ensures var r := CombineReal(b.Num(), theta, a.Num()); r.Some? ==> Operate(b, theta, a).Num() == r
  {
    if CombineReal(b.Num(), theta, a.Num()).Some? {
      assert theta == '/' ==> a.Num().value != 0.0;
      hide Sum, Minus, Product, Ratio, Double.Num, CalculateReal;
      if theta == '+' {
        SumExact(b, a);
      } else if theta == '-' {
        DifferenceExact(b, a);
      } else if theta == '*' {
        ProductExact(b, a);
      } else {
        RatioExact(b, a);
      }
    }
  }

  lemma {:induction false} NextDigit(num: nat, d: nat)
    ensures DOUBLE.extend(Finite(num as real), d) == Finite((num * 10 + d) as real)
  {
    var t := Finite(num as real);
    assert num as real * 10.0 == (num * 10) as real;
    if num > 0 {
      assert Product(t, Finite(10.0)) == Finite((num * 10) as real);
    } else {
      assert t.IsZero();
      assert Product(t, Finite(10.0)) == Zero(false);
    }
  }

  lemma {:induction false} DigitsExact(num: nat, digits: string)
    requires forall c :: c in digits ==> IsDigit(c)
    ensures Extended(DOUBLE, Finite(num as real), digits) == Finite(Decimal(num, digits) as real)
    decreases |digits|
  {
    if digits != [] {
      var d := Digit(digits[0]);
      NextDigit(num, d);
      hide Sum, Product;
      DigitsExact(num * 10 + d, digits[1..]);
    }
  }

  lemma {:induction false} FactorExact(f: Factor)
    requires FactorOk(f)
    ensures FactorReal(f).Some? ==> FactorVal(DOUBLE, f).Num() == FactorReal(f)
  {
    match f
    case Number(_, digits) =>
      DigitsExact(Digit(digits[0]), digits[1..]);
    case Group(_, e) =>
      ExprExact(e);
  }

  lemma {:induction false} TermExact(t: Term)
    requires TermOk(t)
    ensures TermReal(t).Some? ==> TermVal(DOUBLE, t).Num() == TermReal(t)
  {
    FactorExact(t.f);
    if t.Mul? {
      TermExact(t.t);
      OperateExact(TermVal(DOUBLE, t.t), t.op, FactorVal(DOUBLE, t.f));
    }
  }

  /** If nothing is divided by zero the value is that over the reals. */
  lemma {:induction false} ExprExact(e: Expr)
    requires ExprOk(e)
    ensures ExprReal(e).Some? ==> ExprVal(DOUBLE, e).Num() == ExprReal(e)
  {
    TermExact(e.t);
    if e.Add? {
      ExprExact(e.e);
      OperateExact(ExprVal(DOUBLE, e.e), e.op, TermVal(DOUBLE, e.t));
    } else if e.Neg? {
      OperateExact(Finite(0.0), '-', TermVal(DOUBLE, e.t));
    }
  }

  /** getAnswer itself: answered exactly if plain, with the value over the reals unless the text
      divides by zero. */
  lemma {:induction false} AnswersValue(e: Expr, unread: string)
    requires ExprOk(e)
    ensures var o := Run(DOUBLE, ExprText(e) + (['#'] + unread), ['#'], [], 0);
      && (o.Answer? <==> ExprExtra(e) == 0)
      && (o.Answer? && ExprReal(e).Some? ==> o.value.Num() == ExprReal(e) && o.unread == unread && o.opter == ['#'] && |o.opval| == 1)
  {
    AnswersPlainText(DOUBLE, e, unread);
    ExprExact(e);
  }

  // ----- agreement with the integer evaluator

  predicate FactorDivides(f: Factor) {
    f.Group? && ExprDivides(f.e)
  }

  predicate TermDivides(t: Term) {
    match t
    case One(f) => FactorDivides(f)
    case Mul(u, _, op, f) => TermDivides(u) || op == '/' || FactorDivides(f)
  }

  predicate ExprDivides(e: Expr) {
    match e
    case First(t) => TermDivides(t)
    case Neg(_, t) => TermDivides(t)
    case Add(d, _, _, t) => ExprDivides(d) || TermDivides(t)
  }

  ghost predicate Same(i: Option<int>, r: Option<real>) {
    i.Some? && r.Some? && i.value as real == r.value
  }

  // every quotient that the evaluation meets is whole
  ghost predicate FactorWhole(f: Factor)
    requires FactorOk(f)
  {
    f.Group? ==> ExprWhole(f.e)
  }

  ghost predicate TermWhole(t: Term)
    requires TermOk(t)
  {
    && FactorWhole(t.f)
    && (t.Mul? ==> TermWhole(t.t) && (t.op == '/' ==> Divides(FactorValue(t.f), TermValue(t.t))))
  }

  ghost predicate ExprWhole(e: Expr)
    requires ExprOk(e)
  {
    TermWhole(e.t) && (e.Add? ==> ExprWhole(e.e))
  }

  ghost predicate Divides(b: Option<int>, a: Option<int>) {
    a.Some? && b.Some? && b.value != 0 && a.value % b.value == 0
  }

  lemma {:induction false} ProductNotSmaller(d: int, b: int)
    requires d != 0
    ensures Abs(d * b) >= Abs(b)
  {
    if d > 0 {
      assert (d - 1) * Abs(b) >= 0;
    } else {
      assert (-d - 1) * Abs(b) >= 0;
    }
  }

  lemma {:induction false} Multiple(k: int, b: int)
    requires b != 0
    ensures (k * b) / b == k
  {
    var d := k - (k * b) / b;
    assert d * b == (k * b) % b;
    if d != 0 {
      ProductNotSmaller(d, b);
      assert false;
    }
  }

  lemma {:induction false} QuotientWhole(a: int, b: int)
    requires b != 0 && a % b == 0
    ensures Quotient(a, b) as real == a as real / b as real
  {
    var k := a / b;
    assert a == k * b && -a == -k * b;
    Multiple(-k, b);
    assert Quotient(a, b) == k;
    assert (k * b) as real == k as real * b as real;
  }

  lemma {:induction false} OperatorSame(a: int, op: char, b: int)
    requires IsMulOp(op) && (op == '/' ==> b != 0 && a % b == 0)
    ensures Same(Calculate(a, op, b), CalculateReal(a as real, op, b as real))
  {
    if op == '*' {
      assert (a * b) as real == a as real * b as real;
    } else {
      QuotientWhole(a, b);
    }
  }

  lemma {:induction false} FactorSame(f: Factor)
    requires FactorOk(f) && FactorWhole(f)
    ensures Same(FactorValue(f), FactorReal(f))
  {
    if f.Group? {
      ExprSame(f.e);
    }
  }

  lemma {:induction false} TermSame(t: Term)
    requires TermOk(t) && TermWhole(t)
    ensures Same(TermValue(t), TermReal(t))
  {
    FactorSame(t.f);
    if t.Mul? {
      TermSame(t.t);
      OperatorSame(TermValue(t.t).value, t.op, FactorValue(t.f).value);
    }
  }

  /** If every quotient is whole the real value is the integer value. */
  lemma {:induction false} ExprSame(e: Expr)
    requires ExprOk(e) && ExprWhole(e)
    ensures Same(ExprValue(e), ExprReal(e))
  {
    TermSame(e.t);
    if e.Add? {
      ExprSame(e.e);
    }
  }

  lemma {:induction false} FactorWithoutDivision(f: Factor)
    requires FactorOk(f) && !FactorDivides(f)
    ensures FactorWhole(f)
  {
    if f.Group? {
      WithoutDivision(f.e);
    }
  }

  lemma {:induction false} TermWithoutDivision(t: Term)
    requires TermOk(t) && !TermDivides(t)
    ensures TermWhole(t)
  {
    FactorWithoutDivision(t.f);
    if t.Mul? {
      TermWithoutDivision(t.t);
    }
  }

  lemma {:induction false} WithoutDivision(e: Expr)
    requires ExprOk(e) && !ExprDivides(e)
    ensures ExprWhole(e)
  {
    TermWithoutDivision(e.t);
    if e.Add? {
      WithoutDivision(e.e);
    }
  }
}
