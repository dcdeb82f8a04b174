/** The two evaluators side by side. */
module EvaluatorAgreement {
  import opened Basics
  import opened Expression
  import StackCalculator
  import StackCalculatorMeaning
  import P = PrecedenceCalculator
  import T = PrecedenceCalculatorMeaning

  ghost predicate Agree(e: Expr, unread: string)
    requires ExprOk(e)
  {
    var i, r := StackCalculator.Calc(ExprText(e)), P.Run(P.DOUBLE, ExprText(e) + (['#'] + unread), ['#'], [], 0);
    i.Some? && r.Answer? && r.value.Num() == Some(i.value as real) && r.unread == unread
  }

  /** Where every quotient is whole, both evaluators answer with the same number exactly on plain texts. */
  lemma {:induction false} EvaluatorsAgree(e: Expr, unread: string)
    requires ExprOk(e) && T.ExprWhole(e)
    ensures Agree(e, unread) <==> T.ExprExtra(e) == 0
  {
    StackCalculatorMeaning.CalcText(e);
    T.AnswersValue(e, unread);
    T.ExprSame(e);
  }

  /** In particular without division. */
  lemma {:induction false} EvaluatorsAgreeWithoutDivision(e: Expr, unread: string)
    requires ExprOk(e) && !T.ExprDivides(e)
    ensures Agree(e, unread) <==> T.ExprExtra(e) == 0
  {
    T.WithoutDivision(e);
    EvaluatorsAgree(e, unread);
  }
}
