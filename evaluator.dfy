/**
 * The restricted arithmetic evaluator `_safe_eval` (bot.py:246-279).
 *
 * The expression is cleaned (commas to periods, `N%` to `(N/100)`), parsed by
 * Python's `ast.parse`, and the tree is reduced by `eval_node`, which accepts
 * only numeric constants, unary `+`/`-`, binary `+ - * /` and the
 * `Expression` wrapper. The parser is not part of this model: it is the
 * parameter `parse`, which yields the body of the parsed `Expression`, or
 * `None` where Python raises `SyntaxError`. Numbers are `real`.
 */
module Evaluator {
  import opened Wrappers
  import Percentages

  datatype UnaryOperator = UAdd | USub | Not | Invert

  datatype BinaryOperator =
    | Add | Sub | Mult | Div
    | FloorDiv | Mod | Pow | MatMult | LShift | RShift | BitOr | BitXor | BitAnd

  /** The Python value an `ast.Constant` holds. */
  datatype ConstantValue =
    | IntValue(i: int)
    | FloatValue(f: real)
    | ComplexValue(re: real, im: real)
    | BoolValue(b: bool)
    | StrValue(s: string)
    | NoneValue

  /** The part of Python's expression grammar that matters here; `Other` is every remaining node kind. */
  datatype Node =
    | Expression(body: Node)
    | Constant(value: ConstantValue)
    | UnaryOp(op: UnaryOperator, operand: Node)
    | BinOp(left: Node, binop: BinaryOperator, right: Node)
    | Name(id: string)
    | Call(func: Node, args: seq<Node>)
    | Other(kind: string)

  /**
   * Why `_safe_eval` raises: `ValueError("Unsupported expression")`, the
   * `TypeError` of `float()` on a complex number, `ZeroDivisionError`, or the
   * parser's `SyntaxError`.
   */
  datatype EvalError = Unsupported | NotReal | DivisionByZero | SyntaxError

  /** `isinstance(node, ast.Num)`: an int, float or complex constant, but not a bool. */
  predicate IsNum(node: Node) {
    node.Constant? && (node.value.IntValue? || node.value.FloatValue? || node.value.ComplexValue?)
  }

  /** `isinstance(node, ast.Constant) and isinstance(node.value, (int, float))`; a bool is an int. */
  predicate IsIntOrFloatConstant(node: Node) {
    node.Constant? && (node.value.IntValue? || node.value.FloatValue? || node.value.BoolValue?)
  }

  /** `float(v)` for an int, float or bool `v`; a complex `v` is a `TypeError`. */
  function ToReal(v: ConstantValue): Result<real, EvalError> {
    match v
    case IntValue(i) => Success(i as real)
    case FloatValue(f) => Success(f)
    case BoolValue(b) => Success(if b then 1.0 else 0.0)
    case ComplexValue(_, _) => Failure(NotReal)
    case _ => Failure(Unsupported)
  }

  // ---------------------------------------------------------------- reference semantics

  /** The number a constant stands for; 0 for a constant that is not a real number. */
  function ConstantReal(v: ConstantValue): real {
    match v
    case IntValue(i) => i as real
    case FloatValue(f) => f
    case BoolValue(b) => if b then 1.0 else 0.0
    case _ => 0.0
  }

  /** The allow-list: every node of the tree is one `eval_node` accepts. */
  predicate Allowed(node: Node) {
    match node
    case Expression(body) => Allowed(body)
    case Constant(v) => v.IntValue? || v.FloatValue? || v.BoolValue?
    case UnaryOp(op, operand) => (op == UAdd || op == USub) && Allowed(operand)
    case BinOp(left, op, right) => (op == Add || op == Sub || op == Mult || op == Div) && Allowed(left) && Allowed(right)
    case _ => false
  }

  /**
   * Python's `*` and `/` on the model's numbers. Naming them keeps the
   * products out of the unfolded bodies of `Value` and `EvalNode`, which the
   * solver would otherwise treat as non-linear arithmetic at every unfolding.
   */
  function Product(a: real, b: real): real {
    a * b
  }

  function Quotient(a: real, b: real): real
    requires b != 0.0
  {
    a / b
  }

  /** The arithmetic meaning of a tree, with division by zero given the placeholder 0. */
  function Value(node: Node): real {
    match node
    case Expression(body) => Value(body)
    case Constant(v) => ConstantReal(v)
    case UnaryOp(op, operand) => if op == USub then -Value(operand) else Value(operand)
    case BinOp(left, op, right) =>
      var a, b := Value(left), Value(right);
      (match op
       case Add => a + b
       case Sub => a - b
       case Mult => Product(a, b)
       case Div => if b == 0.0 then 0.0 else Quotient(a, b)
       case _ => 0.0)
    case _ => 0.0
  }

  /** Some division in the tree has a divisor whose value is zero. */
  predicate DividesByZero(node: Node) {
    match node
    case Expression(body) => DividesByZero(body)
    case UnaryOp(_, operand) => DividesByZero(operand)
    case BinOp(left, op, right) => DividesByZero(left) || DividesByZero(right) || (op == Div && Value(right) == 0.0)
    case _ => false
  }

  // ---------------------------------------------------------------- eval_node

  /**
   * `eval_node(node)`. The checks run in the order of the source; operands are
   * evaluated left before right, and an operator outside the allow-list is
   * rejected before its operands are looked at.
   */
  function EvalNode(node: Node): (r: Result<real, EvalError>)
    ensures r.Success? <==> Allowed(node) && !DividesByZero(node)
    ensures r.Success? ==> r.value == Value(node)
  {
    if IsNum(node) then ToReal(node.value)
    else if node.UnaryOp? && (node.op == UAdd || node.op == USub) then
      var operand :- EvalNode(node.operand);
      Success(if node.op == USub then -operand else operand)
    else if node.BinOp? && (node.binop == Add || node.binop == Sub || node.binop == Mult || node.binop == Div) then
      var left :- EvalNode(node.left);
      var right :- EvalNode(node.right);
      match node.binop
      case Add => Success(left + right)
      case Sub => Success(left - right)
      case Mult => Success(Product(left, right))
      case Div => if right == 0.0 then Failure(DivisionByZero) else Success(Quotient(left, right))
    else if node.Expression? then EvalNode(node.body)
    else if IsIntOrFloatConstant(node) then ToReal(node.value)
    else Failure(Unsupported)
  }

  /**
   * On a tree inside the allow-list the only possible error is division by zero;
   * a tree outside it never yields a value.
   */
  lemma {:induction false} EvalNodeErrors(node: Node)
    ensures Allowed(node) && EvalNode(node).Failure? ==> EvalNode(node).error == DivisionByZero
    ensures !Allowed(node) ==> EvalNode(node).Failure?
  {
    match node
    case Expression(body) => EvalNodeErrors(body);
    case UnaryOp(_, operand) => EvalNodeErrors(operand);
    case BinOp(left, _, right) => EvalNodeErrors(left); EvalNodeErrors(right);
    case _ =>
  }

  /** A node kind outside the allow-list is rejected at once, whatever lies below it. */
  lemma RejectedAtRoot(node: Node)
    requires node.Name? || node.Call? || node.Other?
      || (node.Constant? && (node.value.StrValue? || node.value.NoneValue?))
      || (node.UnaryOp? && node.op != UAdd && node.op != USub)
      || (node.BinOp? && node.binop !in {Add, Sub, Mult, Div})
    ensures EvalNode(node) == Failure(Unsupported)
  {
    assert !IsNum(node) && !IsIntOrFloatConstant(node);
  }

  /** A complex literal such as `2j` is a `TypeError` from `float()`, not a value. */
  lemma ComplexIsNotReal(re: real, im: real)
    ensures EvalNode(Constant(ComplexValue(re, im))) == Failure(NotReal)
  {
  }

  /** A bool constant is an int: `True` evaluates to 1 and `False` to 0. */
  lemma BoolConstant(b: bool)
    ensures EvalNode(Constant(BoolValue(b))) == Success(if b then 1.0 else 0.0)
  {
  }

  /** Dividing by an operand that evaluates to zero is an error, however the zero is written. */
  lemma DivisionByZeroIsError(left: Node, right: Node)
    requires EvalNode(left).Success? && EvalNode(right) == Success(0.0)
    ensures EvalNode(BinOp(left, Div, right)) == Failure(DivisionByZero)
  {
  }

  /** The tree of `(10+5)*(2/100)`, what `calc (10+5)*2%` is parsed into, evaluates to 0.3. */
  lemma ExampleSuggestion()
    ensures EvalNode(BinOp(
      BinOp(Constant(IntValue(10)), Add, Constant(IntValue(5))),
      Mult,
      BinOp(Constant(IntValue(2)), Div, Constant(IntValue(100))))) == Success(0.3)
  {
    var sum := BinOp(Constant(IntValue(10)), Add, Constant(IntValue(5)));
    var ratio := BinOp(Constant(IntValue(2)), Div, Constant(IntValue(100)));
    var tree := BinOp(sum, Mult, ratio);
    assert Allowed(sum) && Allowed(ratio);
    assert Value(sum) == 15.0 && !DividesByZero(sum);
    assert Value(ratio) == 0.02 && !DividesByZero(ratio);
    assert Value(tree) == 0.3;
  }

  // ---------------------------------------------------------------- _safe_eval

  /**
   * `_safe_eval(expression)`: clean the text, parse it, evaluate the body.
   * `parse(text)` stands for `ast.parse(text, mode="eval").body`.
   */
  function SafeEval(expression: string, parse: string -> Option<Node>): (r: Result<real, EvalError>)
    ensures parse(Percentages.Clean(expression)).None? ==> r == Failure(SyntaxError)
    ensures r.Success? <==>
      var tree := parse(Percentages.Clean(expression));
      tree.Some? && Allowed(tree.value) && !DividesByZero(tree.value)
    ensures r.Success? ==> r.value == Value(parse(Percentages.Clean(expression)).value)
  {
    match parse(Percentages.Clean(expression))
    case None => Failure(SyntaxError)
    case Some(tree) => EvalNode(tree)
  }
}
