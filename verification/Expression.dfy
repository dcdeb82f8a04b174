/** The arithmetic texts both evaluators are written for: their syntax trees, printing and values. */
module Expression {
  import opened Basics

  // factor = number | '(' expr ')';  term = factor { ('*' | '/') factor };  expr = ['-'] term { ('+' | '-') term }
  // The spines lean left, as evaluation does. `pad` counts the spaces printed before a token.
  datatype Factor = Number(pad: nat, digits: string) | Group(pad: nat, e: Expr)
  datatype Term = One(f: Factor) | Mul(t: Term, pad: nat, op: char, f: Factor)
  datatype Expr = First(t: Term) | Neg(pad: nat, t: Term) | Add(e: Expr, pad: nat, op: char, t: Term)

  predicate IsDigit(c: char) {
    '0' <= c <= '9'
  }

  predicate IsMulOp(c: char) {
    c == '*' || c == '/'
  }

  predicate IsAddOp(c: char) {
    c == '+' || c == '-'
  }

  ghost predicate FactorOk(f: Factor) {
    match f
    case Number(_, digits) => digits != [] && forall c :: c in digits ==> IsDigit(c)
    case Group(_, e) => ExprOk(e)
  }

  ghost predicate TermOk(t: Term) {
    match t
    case One(f) => FactorOk(f)
    case Mul(u, _, op, f) => TermOk(u) && IsMulOp(op) && FactorOk(f)
  }

  ghost predicate ExprOk(e: Expr) {
    match e
    case First(t) => TermOk(t)
    case Neg(_, t) => TermOk(t)
    case Add(d, _, op, t) => ExprOk(d) && IsAddOp(op) && TermOk(t)
  }

  // ----- printing

  function Spaces(n: nat): string {
    if n == 0 then "" else " " + Spaces(n - 1)
  }

  function FactorText(f: Factor): string {
    match f
    case Number(pad, digits) => Spaces(pad) + digits
    case Group(pad, e) => Spaces(pad) + ("(" + (ExprText(e) + ")"))
  }

  function TermText(t: Term): string {
    match t
    case One(f) => FactorText(f)
    case Mul(u, pad, op, f) => TermText(u) + (Spaces(pad) + ([op] + FactorText(f)))
  }

  function ExprText(e: Expr): string {
    match e
    case First(t) => TermText(t)
    case Neg(pad, t) => Spaces(pad) + ("-" + TermText(t))
    case Add(d, pad, op, t) => ExprText(d) + (Spaces(pad) + ([op] + TermText(t)))
  }

  // ----- a text and what follows it, token by token

  lemma FactorTail(f: Factor, tail: string)
    ensures FactorText(f) + tail == Spaces(f.pad) +
      if f.Number? then f.digits + tail else ['('] + (ExprText(f.e) + ([')'] + tail))
  {
    match f
    case Number(pad, digits) =>
      Associate(Spaces(pad), digits, tail);
    case Group(pad, e) =>
      Associate(Spaces(pad), "(" + (ExprText(e) + ")"), tail);
      Associate("(", ExprText(e) + ")", tail);
      Associate(ExprText(e), ")", tail);
  }

  lemma TermTail(t: Term, tail: string)
    requires t.Mul?
    ensures TermText(t) + tail == TermText(t.t) + (Spaces(t.pad) + ([t.op] + (FactorText(t.f) + tail)))
    ensures |TermText(t)| == |TermText(t.t)| + t.pad + 1 + |FactorText(t.f)|
  {
    SpacesLength(t.pad);
    var op, f := [t.op], FactorText(t.f);
    Associate(TermText(t.t), Spaces(t.pad) + (op + f), tail);
    Associate(Spaces(t.pad), op + f, tail);
    Associate(op, f, tail);
  }

  lemma NegTail(e: Expr, tail: string)
    requires e.Neg?
    ensures ExprText(e) + tail == Spaces(e.pad) + (['-'] + (TermText(e.t) + tail))
    ensures |ExprText(e)| == e.pad + 1 + |TermText(e.t)|
  {
    SpacesLength(e.pad);
    var t := TermText(e.t);
    Associate(Spaces(e.pad), "-" + t, tail);
    Associate("-", t, tail);
  }

  lemma AddTail(e: Expr, tail: string)
    requires e.Add?
    ensures ExprText(e) + tail == ExprText(e.e) + (Spaces(e.pad) + ([e.op] + (TermText(e.t) + tail)))
    ensures |ExprText(e)| == |ExprText(e.e)| + e.pad + 1 + |TermText(e.t)|
  {
    SpacesLength(e.pad);
    var op, t := [e.op], TermText(e.t);
    Associate(ExprText(e.e), Spaces(e.pad) + (op + t), tail);
    Associate(Spaces(e.pad), op + t, tail);
    Associate(op, t, tail);
  }

  lemma {:induction false} SpacesLength(n: nat)
    ensures |Spaces(n)| == n
  {
    if n > 0 {
      SpacesLength(n - 1);
    }
  }

  lemma Rest(c: char, s: string)
    ensures ([c] + s)[0] == c && ([c] + s)[1..] == s
  {
  }

  // ----- the operators that wait while a text is read: its last one is still to be applied

  function TermOps(t: Term, ops: seq<char>): seq<char> {
    if t.One? then ops else ops + [t.op]
  }

  // ----- integer values; None is a division by zero

  function Digit(c: char): nat
    requires IsDigit(c)
  {
    c as int - '0' as int
  }

  /** The value of a digit sequence read after `num`. */
  function Decimal(num: int, digits: string): int
    requires forall c :: c in digits ==> IsDigit(c)
    decreases digits
  {
    if digits == [] then num else Decimal(num * 10 + Digit(digits[0]), digits[1..])
  }

  /** Integer division rounds towards zero. */
  function Quotient(a: int, b: int): int
    requires b != 0
  {
    if a >= 0 then a / b else -(-a / b)
  }

  function Calculate(a: int, op: char, b: int): Option<int> {
    match op
    case '+' => Some(a + b)
    case '-' => Some(a - b)
    case '*' => Some(a * b)
    case '/' => if b == 0 then None else Some(Quotient(a, b))
    case _ => None
  }

  /** Division, said without naming a quotient: it fails exactly for the divisor 0, the remainder is
      smaller than the divisor, and it has the sign of the dividend. */
  lemma {:induction false} DivisionTruncates(a: int, b: int)
    ensures Calculate(a, '/', b).None? <==> b == 0
    ensures b != 0 ==>
      var product := Calculate(a, '/', b).value * b;
      && Abs(product) <= Abs(a) && Abs(a - product) < Abs(b)
      && (if a >= 0 then a - product >= 0 else a - product <= 0)
  {
    if b != 0 {
      NaturalDivision(Abs(a), b);
    }
  }

  lemma {:induction false} NaturalDivision(n: nat, b: int)
    requires b != 0
    ensures 0 <= (n / b) * b <= n && n - (n / b) * b < Abs(b)
    ensures -(n / b) * b == -((n / b) * b)
  {
    var q, r := n / b, n % b;
    assert n == q * b + r && 0 <= r < Abs(b);
    assert (b > 0 ==> q >= 0) && (b < 0 ==> q <= 0);
  }

  function Combine(a: Option<int>, op: char, b: Option<int>): Option<int> {
    if a.Some? && b.Some? then Calculate(a.value, op, b.value) else None
  }

  ghost function FactorValue(f: Factor): Option<int>
    requires FactorOk(f)
  {
    match f
    case Number(_, digits) => Some(Decimal(0, digits))
    case Group(_, e) => ExprValue(e)
  }

  ghost function TermValue(t: Term): Option<int>
    requires TermOk(t)
  {
    match t
    case One(f) => FactorValue(f)
    case Mul(u, _, op, f) => Combine(TermValue(u), op, FactorValue(f))
  }

  ghost function ExprValue(e: Expr): Option<int>
    requires ExprOk(e)
  {
    match e
    case First(t) => TermValue(t)
    case Neg(_, t) => Combine(Some(0), '-', TermValue(t))
    case Add(d, _, op, t) => Combine(ExprValue(d), op, TermValue(t))
  }
}
