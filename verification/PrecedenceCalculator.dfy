/** cpp/test3.cpp: the evaluator driven by an operator-precedence table. */
module PrecedenceCalculator {
  import opened Basics
  import opened Expression

  function GetIndex(theta: char): nat {
    match theta
    case '+' => 0
    case '-' => 1
    case '*' => 2
    case '/' => 3
    case '(' => 4
    case ')' => 5
    case '#' => 6
    case _ => 0
  }

  const PRIORITY: seq<string> := [
    ">><<<>>",
    ">><<<>>",
    ">>>><>>",
    ">>>><>>",
    "<<<<<=0",
    ">>>>0>>",
    "<<<<<0="
  ]

  function GetPriority(theta1: char, theta2: char): char {
    PRIORITY[GetIndex(theta1)][GetIndex(theta2)]
  }

  // ----- `double` without rounding: the reals, the second zero, the infinities, and what is no number

  datatype Double = Finite(value: real) | NegZero | Infinity(negative: bool) | NaN {
    predicate IsZero() {
      this == Finite(0.0) || NegZero?
    }

    predicate IsNegative() {
      NegZero? || (Infinity? && negative) || (Finite? && value < 0.0)
    }

    /** The number it stands for. */
    function Num(): Option<real> {
      match this
      case Finite(v) => Some(v)
      case NegZero => Some(0.0)
      case _ => None
    }
  }

  function Zero(negative: bool): Double {
    if negative then NegZero else Finite(0.0)
  }

  function Minus(x: Double): Double {
    match x
    case Finite(v) => if v == 0.0 then NegZero else Finite(-v)
    case NegZero => Finite(0.0)
    case Infinity(negative) => Infinity(!negative)
    case NaN => NaN
  }

  function Sum(x: Double, y: Double): Double {
    if x.NaN? || y.NaN? then NaN
    else if x.Infinity? then (if y == Minus(x) then NaN else x)
    else if y.Infinity? then y
    else if x.NegZero? && y.NegZero? then NegZero
    else Finite(x.Num().value + y.Num().value)
  }

  function Times(x: real, y: real): real {
    x * y
  }

  function Over(x: real, y: real): real
    requires y != 0.0
  {
    x / y
  }

  function Product(x: Double, y: Double): Double {
    var negative := x.IsNegative() != y.IsNegative();
    if x.NaN? || y.NaN? then NaN
    else if x.Infinity? || y.Infinity? then (if x.IsZero() || y.IsZero() then NaN else Infinity(negative))
    else if x.IsZero() || y.IsZero() then Zero(negative)
    else Finite(Times(x.Num().value, y.Num().value))
  }

  function Ratio(x: Double, y: Double): Double {
    var negative := x.IsNegative() != y.IsNegative();
    if x.NaN? || y.NaN? || (x.Infinity? && y.Infinity?) || (x.IsZero() && y.IsZero()) then NaN
    else if x.Infinity? || y.IsZero() then Infinity(negative)
    else if y.Infinity? || x.IsZero() then Zero(negative)
    else Finite(Over(x.Num().value, y.Num().value))
  }

  function Operate(b: Double, theta: char, a: Double): Double {
    if theta == '+' then Sum(b, a)
    else if theta == '-' then Sum(b, Minus(a))
    else if theta == '*' then Product(b, a)
    else Ratio(b, a)
  }

  // ----- the loop, which only moves values around: it is the same for any arithmetic

  datatype Arithmetic<!V> = Arithmetic(digit: nat -> V, extend: (V, nat) -> V, operate: (V, char, V) -> V)

  const DOUBLE: Arithmetic<Double> := Arithmetic(
    (d: nat) => Finite(d as real),
    (t: Double, d: nat) => Sum(Product(t, Finite(10.0)), Finite(d as real)),
    Operate)

  /** Answer carries the value, the text after the closing '#', and both stacks as they are left.
      Diverges: a '0' entry of the table, on which the loop repeats forever without any change.
      Undefined: a read of an empty stack, a read past the end of the text, or an
      operator without a case. */
  datatype Outcome<V> =
    | Answer(value: V, unread: string, opter: seq<char>, opval: seq<V>)
    | Diverges
    | Undefined

  /** The values after reading the digit `c`. */
  function ReadDigit<V>(arith: Arithmetic<V>, opval: seq<V>, counter: nat, c: char): Option<seq<V>>
    requires IsDigit(c)
  {
    if counter != 1 then Some(opval + [arith.digit(Digit(c))])
    else if opval == [] then None
    else Some(Pop(opval) + [arith.extend(Top(opval), Digit(c))])
  }

  /** The values after applying `theta` to the last two. */
  function Applied<V>(arith: Arithmetic<V>, opval: seq<V>, theta: char): Option<seq<V>> {
    var m := |opval|;
    if m < 2 || !(IsMulOp(theta) || IsAddOp(theta)) then None
    else Some(opval[..m - 2] + [arith.operate(opval[m - 2], theta, opval[m - 1])])
  }

  /** The loop; `s` holds the current character followed by the unread text. */
  function Run<V>(arith: Arithmetic<V>, s: string, opter: seq<char>, opval: seq<V>, counter: nat): Outcome<V>
    decreases |s|, |opter|
  {
    if s == [] || opter == [] then Undefined else
      var c, top := s[0], Top(opter);
      if c == '#' && top == '#' then
        if opval == [] then Undefined else Answer(Top(opval), s[1..], opter, opval)
      else if IsDigit(c) then
        var next := ReadDigit(arith, opval, counter, c);
        if next.None? then Undefined else Run(arith, s[1..], opter, next.value, if counter == 1 then 1 else counter + 1)
      else
        match GetPriority(top, c)
        case '<' => Run(arith, s[1..], opter + [c], opval, 0)
        case '=' => Run(arith, s[1..], Pop(opter), opval, 0)
        case '>' =>
          var next := Applied(arith, opval, top);
          if next.None? then Undefined else Run(arith, s, Pop(opter), next.value, 0)
        case _ => Diverges
  }

  /** The global stacks and the input stream. */
  class Evaluator {
    var opter: seq<char>
    var opval: seq<Double>
    var input: string

    constructor (text: string)
      ensures opter == [] && opval == [] && input == text
    {
      opter, opval, input := [], [], text;
    }

    method GetAnswer() returns (o: Outcome<Double>)
      modifies this
      ensures o == Run(DOUBLE, old(input), old(opter) + ['#'], old(opval), 0)
      ensures o.Answer? ==> input == o.unread && opter == o.opter && opval == o.opval
    {
      hide ReadDigit, Applied, GetPriority;
      opter := opter + ['#'];
      var counter := 0;
      if input == [] {
        return Undefined;
      }
      var c := input[0];
      input := input[1..];
      assert [c] + input == old(input);
      while opter != [] && (c != '#' || Top(opter) != '#')
        invariant Run(DOUBLE, old(input), old(opter) + ['#'], old(opval), 0) == Run(DOUBLE, [c] + input, opter, opval, counter)
        invariant counter >= 0
        decreases |input|, |opter|
      {
        ghost var s := [c] + input;
        assert s[1..] == input;
        var next := true;
        if IsDigit(c) {
          var read := ReadDigit(DOUBLE, opval, counter, c);
          if read.None? {
            return Undefined;
          }
          opval := read.value;
          if counter != 1 {
            counter := counter + 1;
          }
        } else {
          counter := 0;
          match GetPriority(Top(opter), c) {
            case '<' =>
              opter := opter + [c];
            case '=' =>
              opter := Pop(opter);
            case '>' =>
              var applied := Applied(DOUBLE, opval, Top(opter));
              if applied.None? {
                return Undefined;
              }
              opter := Pop(opter);
              opval := applied.value;
              next := false;
            case _ =>
              return Diverges;
          }
        }
        if next {
          if input == [] {
            return Undefined;
          }
          c := input[0];
          input := input[1..];
          assert s[1..] == [c] + input;
        }
      }
      if opter == [] || opval == [] {
        return Undefined;
      }
      assert ([c] + input)[1..] == input;
      return Answer(Top(opval), input, opter, opval);
    }
  }
}
