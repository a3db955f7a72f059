/** The condition expression language: an expression tree whose variables carry a type
    that starts out `Unknown` and is filled in by type resolution. */
module Ast {

  datatype Types = Int | Bool | Unknown

  datatype BinaryOperator =
    | Addition | Subtraction | Multiplication | Division | Modulo
    | Equal | NotEqual | LessThan | LessThanOrEqual | GreaterThan | GreaterThanOrEqual
    | And | Or | Implication

  datatype UnaryOperator = Not | Negation

  datatype Expression =
    | VariableMapping(name: string, ty: Types)
    | BinaryExpression(left: Expression, op: BinaryOperator, right: Expression)
    | UnaryExpression(uop: UnaryOperator, operand: Expression)
    | BooleanLiteral(b: bool)
    | NumberLiteral(n: int)

  /** The variable occurrences of an expression, left to right. */
  function Vars(e: Expression): seq<(string, Types)>
  {
    match e
    case VariableMapping(name, ty) => [(name, ty)]
    case BinaryExpression(left, _, right) => Vars(left) + Vars(right)
    case UnaryExpression(_, operand) => Vars(operand)
    case _ => []
  }

  /** No variable of `e` still has type `Unknown`. */
  predicate Resolved(e: Expression)
  {
    forall v :: v in Vars(e) ==> v.1 != Unknown
  }

  /** `e'` is `e` with, at most, the types of its variables changed: the same
      constructors, operators, literals and variable names in the same places. */
  predicate SameShape(e: Expression, e': Expression)
  {
    match e
    case VariableMapping(name, _) =>
      e'.VariableMapping? && e'.name == name
    case BinaryExpression(left, op, right) =>
      e'.BinaryExpression? && e'.op == op && SameShape(left, e'.left) && SameShape(right, e'.right)
    case UnaryExpression(uop, operand) =>
      e'.UnaryExpression? && e'.uop == uop && SameShape(operand, e'.operand)
    case _ =>
      e' == e
  }
}
