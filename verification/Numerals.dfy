/** What the two evaluators answer on texts written down character by character. */
module Numerals {
  import opened Basics
  import opened Expression
  import S = StackCalculator
  import StackCalculatorMeaning
  import P = PrecedenceCalculator
  import T = PrecedenceCalculatorMeaning

  /** The decimal numeral of `n`. */
  function Numeral(n: nat): string {
    (if n < 10 then "" else Numeral(n / 10)) + [('0' as int + n % 10) as char]
  }

  lemma {:induction false} DecimalAppends(num: int, digits: string, c: char)
    requires IsDigit(c) && forall d :: d in digits ==> IsDigit(d)
    ensures Decimal(num, digits + [c]) == Decimal(num, digits) * 10 + Digit(c)
    decreases |digits|
  {
    if digits == [] {
      assert digits + [c] == [c];
      assert Decimal(num, [c]) == Decimal(num * 10 + Digit(c), []);
    } else {
      assert (digits + [c])[1..] == digits[1..] + [c];
      DecimalAppends(num * 10 + Digit(digits[0]), digits[1..], c);
    }
  }

  lemma {:induction false} NumeralDenotes(n: nat)
    ensures Numeral(n) != [] && (forall c :: c in Numeral(n) ==> IsDigit(c))
    ensures Decimal(0, Numeral(n)) == n
    decreases n
  {
    var c := ('0' as int + n % 10) as char;
    if n < 10 {
      assert Numeral(n) == [] + [c];
      DecimalAppends(0, [], c);
    } else {
      NumeralDenotes(n / 10);
      DecimalAppends(0, Numeral(n / 10), c);
    }
  }

  // ----- the syntax trees of these texts, with their values

  function Num(n: nat): Factor {
    Number(0, Numeral(n))
  }

  ghost predicate TermIs(t: Term, text: string, i: Option<int>, r: Option<real>) {
    TermOk(t) && TermText(t) == text && TermValue(t) == i && T.TermReal(t) == r
  }

  ghost predicate ExprIs(e: Expr, text: string, i: Option<int>, r: Option<real>) {
    ExprOk(e) && ExprText(e) == text && ExprValue(e) == i && T.ExprReal(e) == r
  }

  lemma {:induction false} NumIs(n: nat)
    ensures TermIs(One(Num(n)), Numeral(n), Some(n), Some(n as real)) && T.TermExtra(One(Num(n))) == 0
  {
    NumeralDenotes(n);
    assert Spaces(0) + Numeral(n) == Numeral(n);
  }

  lemma {:induction false} MulIs(t: Term, text: string, i: Option<int>, r: Option<real>, op: char, n: nat)
    requires TermIs(t, text, i, r) && IsMulOp(op)
    ensures var m := Mul(t, 0, op, Num(n));
      && TermIs(m, text + [op] + Numeral(n), Combine(i, op, Some(n)), T.CombineReal(r, op, Some(n as real)))
      && T.TermExtra(m) == T.TermExtra(t)
  {
    NumIs(n);
    assert Spaces(0) + ([op] + Numeral(n)) == [op] + Numeral(n);
    Associate(text, [op], Numeral(n));
  }

  lemma {:induction false} GroupIs(e: Expr, text: string, i: Option<int>, r: Option<real>)
    requires ExprIs(e, text, i, r)
    ensures var t := One(Group(0, e)); TermIs(t, "(" + text + ")", i, r) && T.TermExtra(t) == T.ExprExtra(e)
  {
    Associate("(", text, ")");
    assert Spaces(0) + ("(" + (text + ")")) == "(" + (text + ")");
  }

  lemma {:induction false} NegIs(t: Term, text: string, i: Option<int>, r: Option<real>)
    requires TermIs(t, text, i, r)
    ensures ExprIs(Neg(0, t), "-" + text, Combine(Some(0), '-', i), T.CombineReal(Some(0.0), '-', r))
  {
    assert Spaces(0) + ("-" + text) == "-" + text;
  }

  lemma {:induction false} AddIs(e: Expr, text: string, i: Option<int>, r: Option<real>, op: char,
                                 t: Term, text': string, i': Option<int>, r': Option<real>)
    requires ExprIs(e, text, i, r) && TermIs(t, text', i', r') && IsAddOp(op)
    ensures var a := Add(e, 0, op, t);
      && ExprIs(a, text + [op] + text', Combine(i, op, i'), T.CombineReal(r, op, r'))
      && T.ExprExtra(a) == T.ExprExtra(e) + T.TermExtra(t)
  {
    assert Spaces(0) + ([op] + text') == [op] + text';
    Associate(text, [op], text');
  }

  // ----- what is answered

  /** calculate_input answers `i`; getAnswer reads on to the '#' and answers the number `r`, if that is one. */
  ghost predicate Answered(text: string, i: Option<int>, r: Option<real>) {
    && S.Calc(text) == i
    && forall unread :: AnsweredBefore(text, unread, r)
  }

  ghost predicate AnsweredBefore(text: string, unread: string, r: Option<real>) {
    var o := P.Run(P.DOUBLE, text + (['#'] + unread), ['#'], [], 0);
    o.Answer? && o.unread == unread && (r.Some? ==> o.value.Num() == r)
  }

  lemma {:induction false} ExprAnswered(e: Expr, text: string, i: Option<int>, r: Option<real>)
    requires ExprIs(e, text, i, r) && T.ExprExtra(e) == 0
    ensures Answered(text, i, r)
  {
    StackCalculatorMeaning.CalcText(e);
    forall unread
      ensures AnsweredBefore(text, unread, r)
    {
      T.AnswersPlainText(P.DOUBLE, e, unread);
      T.AnswersValue(e, unread);
    }
  }

  /** A numeral denotes its number. */
  lemma {:induction false} NumberText(n: nat)
    ensures Answered(Numeral(n), Some(n), Some(n as real))
  {
    NumIs(n);
    ExprAnswered(First(One(Num(n))), Numeral(n), Some(n), Some(n as real));
  }

  /** A leading minus negates; only calculate_input reads it. */
  lemma {:induction false} MinusText(n: nat)
    ensures S.Calc("-" + Numeral(n)) == Some(0 - n)
  {
    NumIs(n);
    NegIs(One(Num(n)), Numeral(n), Some(n), Some(n as real));
    StackCalculatorMeaning.CalcText(Neg(0, One(Num(n))));
  }

  lemma {:induction false} QuotientOf(t: Term, text: string, i: int, b: nat)
    requires TermIs(t, text, Some(i), Some(i as real))
    ensures var q := Mul(t, 0, '/', Num(b));
      && TermIs(q, text + "/" + Numeral(b), if b == 0 then None else Some(Quotient(i, b)), if b == 0 then None else Some(i as real / b as real))
      && T.TermExtra(q) == T.TermExtra(t)
  {
    MulIs(t, text, Some(i), Some(i as real), '/', b);
  }

  /** Division truncates. */
  lemma {:induction false} QuotientText(a: nat, b: nat)
    ensures Answered(Numeral(a) + "/" + Numeral(b), if b == 0 then None else Some(a / b),
                     if b == 0 then None else Some(a as real / b as real))
  {
    NumIs(a);
    QuotientOf(One(Num(a)), Numeral(a), a, b);
    var i, r := if b == 0 then None else Some(a / b), if b == 0 then None else Some(a as real / b as real);
    assert b != 0 ==> Quotient(a, b) == a / b;
    hide *;
    FirstIs(Mul(One(Num(a)), 0, '/', Num(b)), Numeral(a) + "/" + Numeral(b), i, r);
    ExprAnswered(First(Mul(One(Num(a)), 0, '/', Num(b))), Numeral(a) + "/" + Numeral(b), i, r);
  }

  lemma {:induction false} FirstIs(t: Term, text: string, i: Option<int>, r: Option<real>)
    requires TermIs(t, text, i, r)
    ensures ExprIs(First(t), text, i, r) && T.ExprExtra(First(t)) == T.TermExtra(t)
  {
  }

  lemma {:induction false} NegativeIs(n: nat)
    ensures TermIs(One(Group(0, Neg(0, One(Num(n))))), "(-" + Numeral(n) + ")", Some(0 - n), Some((0 - n) as real))
  {
    NumIs(n);
    NegIs(One(Num(n)), Numeral(n), Some(n), Some(n as real));
    assert 0.0 - n as real == (0 - n) as real;
    GroupIs(Neg(0, One(Num(n))), "-" + Numeral(n), Some(0 - n), Some((0 - n) as real));
    assert "(" + ("-" + Numeral(n)) + ")" == "(-" + Numeral(n) + ")";
  }

  lemma {:induction false} NegativeQuotient(a: nat, b: nat)
    requires b != 0
    ensures Quotient(0 - a, b) == 0 - a / b
  {
    if a == 0 {
      assert 0 / b == 0;
    }
  }

  /** Also for a negative dividend. */
  lemma {:induction false} NegativeQuotientText(a: nat, b: nat)
    ensures S.Calc("(-" + Numeral(a) + ")/" + Numeral(b)) == if b == 0 then None else Some(0 - a / b)
  {
    NegativeIs(a);
    if b != 0 {
      NegativeQuotient(a, b);
    }
    hide TermIs, Numeral, Quotient;
    var t, text := One(Group(0, Neg(0, One(Num(a))))), "(-" + Numeral(a) + ")";
    QuotientOf(t, text, 0 - a, b);
    assert text + "/" + Numeral(b) == "(-" + Numeral(a) + ")/" + Numeral(b);
    CalcIs(Mul(t, 0, '/', Num(b)), text + "/" + Numeral(b), if b == 0 then None else Some(0 - a / b),
      if b == 0 then None else Some((0 - a) as real / b as real));
  }

  lemma {:induction false} CalcIs(t: Term, text: string, i: Option<int>, r: Option<real>)
    requires TermIs(t, text, i, r)
    ensures S.Calc(text) == i
  {
    StackCalculatorMeaning.CalcText(First(t));
  }

  function PlusOrMinus(i: int, op: char, n: int): int {
    if op == '+' then i + n else i - n
  }

  lemma {:induction false} Chained(e: Expr, text: string, i: int, op: char, n: nat)
    requires ExprIs(e, text, Some(i), Some(i as real)) && T.ExprExtra(e) == 0 && IsAddOp(op)
    ensures var a, j := Add(e, 0, op, One(Num(n))), PlusOrMinus(i, op, n);
      && ExprIs(a, text + [op] + Numeral(n), Some(j), Some(j as real)) && T.ExprExtra(a) == 0
      && Answered(text + [op] + Numeral(n), Some(j), Some(j as real))
  {
    NumIs(n);
    var j := PlusOrMinus(i, op, n);
    AddIs(e, text, Some(i), Some(i as real), op, One(Num(n)), Numeral(n), Some(n), Some(n as real));
    ExprAnswered(Add(e, 0, op, One(Num(n))), text + [op] + Numeral(n), Some(j), Some(j as real));
  }

  /** Sums and differences go left first. */
  lemma {:induction false} SumText(a: nat, op: char, b: nat, op': char, c: nat)
    requires op in "+-" && op' in "+-"
    ensures var text, i := Numeral(a) + [op] + Numeral(b), PlusOrMinus(a, op, b);
      && Answered(text, Some(i), Some(i as real))
      && var j := PlusOrMinus(i, op', c); Answered(text + [op'] + Numeral(c), Some(j), Some(j as real))
  {
    NumIs(a);
    var e := First(One(Num(a)));
    FirstIs(One(Num(a)), Numeral(a), Some(a), Some(a as real));
    hide ExprIs, Answered, PlusOrMinus, Numeral;
    Chained(e, Numeral(a), a, op, b);
    Chained(Add(e, 0, op, One(Num(b))), Numeral(a) + [op] + Numeral(b), PlusOrMinus(a, op, b), op', c);
  }

  lemma ProductAsReal(a: int, b: int)
    ensures P.Times(a as real, b as real) == (a * b) as real
  {
  }

  lemma {:induction false} ProductIs(a: nat, b: nat)
    ensures var t := Mul(One(Num(a)), 0, '*', Num(b));
      TermIs(t, Numeral(a) + "*" + Numeral(b), Some(a * b), Some((a * b) as real)) && T.TermExtra(t) == 0
  {
    NumIs(a);
    ProductAsReal(a, b);
    MulIs(One(Num(a)), Numeral(a), Some(a), Some(a as real), '*', b);
  }

  /** Products bind tighter than sums, and brackets tighter than both. */
  lemma {:induction false} ProductText(a: nat, b: nat, c: nat)
    ensures var x := Numeral(a) + "*" + Numeral(b); Answered(x, Some(a * b), Some((a * b) as real))
    ensures var x := Numeral(a) + "*" + Numeral(b) + "+" + Numeral(c); Answered(x, Some(a * b + c), Some((a * b + c) as real))
    ensures var x := Numeral(c) + "+" + (Numeral(a) + "*" + Numeral(b)); Answered(x, Some(c + a * b), Some((c + a * b) as real))
    ensures var x := "(" + (Numeral(a) + "+" + Numeral(b)) + ")*" + Numeral(c); Answered(x, Some((a + b) * c), Some(((a + b) * c) as real))
  {
    NumIs(a);
    NumIs(b);
    NumIs(c);
    ProductIs(a, b);
    hide TermIs, ExprIs, Answered, Numeral;
    var x, y, z, ab := One(Num(a)), One(Num(b)), One(Num(c)), Numeral(a) + "*" + Numeral(b);
    var p := Mul(x, 0, '*', Num(b));
    FirstIs(x, Numeral(a), Some(a), Some(a as real));
    FirstIs(z, Numeral(c), Some(c), Some(c as real));
    FirstIs(p, ab, Some(a * b), Some((a * b) as real));
    ExprAnswered(First(p), ab, Some(a * b), Some((a * b) as real));
    SumOf(First(p), ab, a * b, z, Numeral(c), c);
    SumOf(First(z), Numeral(c), c, p, ab, a * b);
    SumOf(First(x), Numeral(a), a, y, Numeral(b), b);
    ProductOf(Add(First(x), 0, '+', y), Numeral(a) + "+" + Numeral(b), a + b, c);
  }

  lemma {:induction false} SumOf(e: Expr, text: string, i: int, t: Term, text': string, i': int)
    requires ExprIs(e, text, Some(i), Some(i as real)) && TermIs(t, text', Some(i'), Some(i' as real))
    requires T.ExprExtra(e) == T.TermExtra(t) == 0
    ensures Answered(text + "+" + text', Some(i + i'), Some((i + i') as real))
    ensures ExprIs(Add(e, 0, '+', t), text + "+" + text', Some(i + i'), Some((i + i') as real))
    ensures T.ExprExtra(Add(e, 0, '+', t)) == 0
  {
    AddIs(e, text, Some(i), Some(i as real), '+', t, text', Some(i'), Some(i' as real));
    ExprAnswered(Add(e, 0, '+', t), text + "+" + text', Some(i + i'), Some((i + i') as real));
  }

  lemma {:induction false} ProductOf(e: Expr, text: string, i: int, n: nat)
    requires ExprIs(e, text, Some(i), Some(i as real)) && T.ExprExtra(e) == 0
    ensures Answered("(" + text + ")*" + Numeral(n), Some(i * n), Some((i * n) as real))
  {
    GroupIs(e, text, Some(i), Some(i as real));
    MulIs(One(Group(0, e)), "(" + text + ")", Some(i), Some(i as real), '*', n);
    ProductAsReal(i, n);
    assert "(" + text + ")" + "*" + Numeral(n) == "(" + text + ")*" + Numeral(n);
    ExprAnswered(First(Mul(One(Group(0, e)), 0, '*', Num(n))), "(" + text + ")*" + Numeral(n), Some(i * n), Some((i * n) as real));
  }

  /** `double` division by zero goes on with an infinity, or with no number for 0/0. */
  lemma {:induction false} ZeroDivisorText(n: nat, unread: string)
    ensures var o := P.Run(P.DOUBLE, Numeral(n) + "/" + Numeral(0) + (['#'] + unread), ['#'], [], 0);
      o.Answer? && o.value == if n == 0 then P.NaN else P.Infinity(false)
  {
    NumIs(n);
    QuotientOf(One(Num(n)), Numeral(n), n, 0);
    var t := Mul(One(Num(n)), 0, '/', Num(0));
    FirstIs(t, Numeral(n) + "/" + Numeral(0), None, None);
    NumeralExact(n);
    NumeralExact(0);
    assert T.TermVal(P.DOUBLE, One(Num(n))) == P.Finite(n as real);
    assert T.TermVal(P.DOUBLE, t) == P.DOUBLE.operate(P.Finite(n as real), '/', P.Finite(0.0));
    assert P.DOUBLE.operate(P.Finite(n as real), '/', P.Finite(0.0)) == P.Operate(P.Finite(n as real), '/', P.Finite(0.0));
    hide P.Run, Numeral;
    T.AnswersPlainText(P.DOUBLE, First(t), unread);
  }

  lemma {:induction false} NumeralExact(n: nat)
    ensures FactorOk(Num(n)) && T.FactorVal(P.DOUBLE, Num(n)) == P.Finite(n as real)
  {
    NumeralDenotes(n);
    var s := Numeral(n);
    assert Decimal(0, s) == Decimal(Digit(s[0]), s[1..]);
    T.DigitsExact(Digit(s[0]), s[1..]);
  }
}
