/** The syntax trees the three analyses walk.

    The grammar's `expression`, `constExpression`, `primary` and
    `leftValueAccess` nodes each have exactly one child and every analysis
    passes straight through them, so they are not separate nodes here: an
    expression is an `AddExpr`, and the primary forms sit in `Unary`. */
module Syntax {
  import opened Wrappers

  datatype AddOp = Plus | Minus
  datatype MulOp = Times | Divide | Modulo

  /** `additiveExpression`: a lone multiplicative operand, or a left-associative
      `left op right` node. */
  datatype AddExpr =
    | AddLeaf(mul: MulExpr)
    | AddNode(left: AddExpr, addOp: AddOp, right: MulExpr)

  /** `multiplicativeExpression`, shaped like `AddExpr`. */
  datatype MulExpr =
    | MulLeaf(unary: Unary)
    | MulNode(left: MulExpr, mulOp: MulOp, right: Unary)

  /** `unaryExpression` together with the primary expressions and left values. */
  datatype Unary =
    | UnaryPlus(operand: AddExpr)
    | UnaryMinus(operand: AddExpr)
    | FunctionCall(callee: string, args: seq<AddExpr>)
    | Parentheses(inner: AddExpr)
    | Constant(text: string)
    | VariableAccess(name: string)
    | ArrayAccess(name: string, indices: seq<AddExpr>)

  /** An atom is a form neither analysis looks inside: a literal, a
      reference or a call. */
  predicate IsAtom(u: Unary) {
    u.Constant? || u.VariableAccess? || u.ArrayAccess? || u.FunctionCall?
  }

  /** The expression `u` on its own, wrapped in single-child nodes. */
  function Lift(u: Unary): AddExpr {
    AddLeaf(MulLeaf(u))
  }

  /** The atoms of an expression, left to right, reached through the
      operators, unary signs and parentheses. */
  function Atoms(e: AddExpr): (r: seq<Unary>)
    ensures forall i :: 0 <= i < |r| ==> IsAtom(r[i])
    ensures |r| > 0
  {
    match e
    case AddLeaf(m) => MulAtoms(m)
    case AddNode(l, _, m) => Atoms(l) + MulAtoms(m)
  }

  function MulAtoms(e: MulExpr): (r: seq<Unary>)
    ensures forall i :: 0 <= i < |r| ==> IsAtom(r[i])
    ensures |r| > 0
  {
    match e
    case MulLeaf(u) => UnaryAtoms(u)
    case MulNode(l, _, u) => MulAtoms(l) + UnaryAtoms(u)
  }

  function UnaryAtoms(u: Unary): (r: seq<Unary>)
    ensures forall i :: 0 <= i < |r| ==> IsAtom(r[i])
    ensures |r| > 0
    ensures IsAtom(u) ==> r == [u]
  {
    match u
    case UnaryPlus(x) => Atoms(x)
    case UnaryMinus(x) => Atoms(x)
    case Parentheses(x) => Atoms(x)
    case _ => [u]
  }

  /** `constInitValue`: either a constant expression or a brace group of
      `elements`.  The source tells leaves from groups only by whether
      `elements` is empty, so `{}` counts as a leaf. */
  datatype InitValue = InitValue(constExpr: Option<AddExpr>, elements: seq<InitValue>)

  predicate IsLeaf(v: InitValue) {
    |v.elements| == 0
  }
}
