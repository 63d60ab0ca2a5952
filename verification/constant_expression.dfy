/** Constant folding of `+ - * / %`, unary signs, parentheses and literals.

    A result is `Some(value)` on success and `None` on failure.  The source
    pairs a failure with a value as well: NaN from an operator node, zero
    from an unparsable literal or from a reference or call; that value is
    dropped here.  Values are reals: float rounding is not modelled. */
module ConstantExpression {
  import opened Wrappers
  import opened Numerics
  import opened Syntax

  /** The two float primitives the evaluator relies on but does not define
      itself: `float.TryParse` of a literal's text, and the `%` operator on
      floats, which is only ever reached with a near-zero divisor. */
  datatype FloatOps = FloatOps(parse: string -> Option<real>, remainder: (real, real) -> real)

  /** One binary `+`/`-` node, given its operands' results: it succeeds
      exactly when both operands do. */
  function Additive(op: AddOp, left: Option<real>, right: Option<real>): (r: Option<real>)
    ensures r.Some? <==> left.Some? && right.Some?
    ensures r.Some? && op == Plus ==> r.value == left.value + right.value
    ensures r.Some? && op == Minus ==> r.value == left.value - right.value
  {
    if left.Some? && right.Some? then
      Some(if op == Plus then left.value + right.value else left.value - right.value)
    else None
  }

  /** One binary `*`/`/`/`%` node, given its operands' results.  As written,
      `*` fails on a near-zero right operand just as `/` does, and `%`
      succeeds ONLY when its divisor is near zero (and both operands are near
      integers); the value of a successful `%` is left to `ops`. */
  function Multiplicative(ops: FloatOps, op: MulOp, left: Option<real>, right: Option<real>): (r: Option<real>)
    ensures r.Some? ==> left.Some? && right.Some?
    ensures op != Modulo ==>
      (r.Some? <==> left.Some? && right.Some? && !NearZero(right.value))
    ensures op == Modulo ==>
      (r.Some? <==> (&& left.Some? && right.Some?
                     && NearInteger(left.value) && NearInteger(right.value)
                     && NearZero(right.value)))
    ensures r.Some? && op == Times ==> r.value == left.value * right.value
    ensures r.Some? && op == Divide ==> r.value == left.value / right.value
    ensures r.Some? && op == Modulo ==> r.value == ops.remainder(left.value, right.value)
  {
    if left.None? || right.None? then None
    else if op != Modulo then
      if NearZero(right.value) then None
      else Some(if op == Times then left.value * right.value else left.value / right.value)
    else if NearInteger(left.value) && NearInteger(right.value) && NearZero(right.value) then
      Some(ops.remainder(left.value, right.value))
    else None
  }

  /** `VisitConstExpression` / `VisitAdditiveExpression`: a node without a
      left operand passes its operand's result through. */
  function Eval(ops: FloatOps, e: AddExpr): Option<real> {
    match e
    case AddLeaf(m) => EvalMul(ops, m)
    case AddNode(l, op, m) => Additive(op, Eval(ops, l), EvalMul(ops, m))
  }

  /** `VisitMultiplicativeExpression`. */
  function EvalMul(ops: FloatOps, e: MulExpr): Option<real> {
    match e
    case MulLeaf(u) => EvalUnary(ops, u)
    case MulNode(l, op, u) => Multiplicative(ops, op, EvalMul(ops, l), EvalUnary(ops, u))
  }

  /** `VisitUnaryPlus`, `VisitUnaryMinus`, `VisitParentheses`, `VisitConstant`.
      Unary minus hands back its operand's result without negating it.
      References and calls have no override in the evaluator: the default
      visit yields the result of their last child, a token, which is the
      default `(false, 0)`, so they fail. */
  function EvalUnary(ops: FloatOps, u: Unary): Option<real> {
    match u
    case UnaryPlus(x) => Eval(ops, x)
    case UnaryMinus(x) => Eval(ops, x)
    case Parentheses(x) => Eval(ops, x)
    case Constant(t) => ops.parse(t)
    case _ => None
  }

  // ---------------------------------------------------------------------
  // Single-child nodes

  /** A literal on its own evaluates to its parsed text, and a unary sign or a
      pair of parentheses around an expression leaves its result unchanged,
      through the single-child additive and multiplicative nodes. */
  lemma SingleChildNodesAreTransparent(ops: FloatOps, e: AddExpr, t: string)
    ensures Eval(ops, Lift(Constant(t))) == ops.parse(t)
    ensures Eval(ops, Lift(UnaryPlus(e))) == Eval(ops, e)
    ensures Eval(ops, Lift(UnaryMinus(e))) == Eval(ops, e)
    ensures Eval(ops, Lift(Parentheses(e))) == Eval(ops, e)
  {
    assert Eval(ops, Lift(Constant(t))) == EvalMul(ops, MulLeaf(Constant(t))) == EvalUnary(ops, Constant(t));
    assert Eval(ops, Lift(UnaryPlus(e))) == EvalMul(ops, MulLeaf(UnaryPlus(e))) == EvalUnary(ops, UnaryPlus(e));
    assert Eval(ops, Lift(UnaryMinus(e))) == EvalMul(ops, MulLeaf(UnaryMinus(e))) == EvalUnary(ops, UnaryMinus(e));
    assert Eval(ops, Lift(Parentheses(e))) == EvalMul(ops, MulLeaf(Parentheses(e))) == EvalUnary(ops, Parentheses(e));
  }

  // ---------------------------------------------------------------------
  // Failure propagation

  /** Every atom is a literal whose text parses. */
  predicate AtomsParse(ops: FloatOps, atoms: seq<Unary>) {
    forall i :: 0 <= i < |atoms| ==> atoms[i].Constant? && ops.parse(atoms[i].text).Some?
  }

  lemma AtomsParseAppend(ops: FloatOps, a: seq<Unary>, b: seq<Unary>)
    ensures AtomsParse(ops, a + b) <==> AtomsParse(ops, a) && AtomsParse(ops, b)
  {
    if AtomsParse(ops, a) && AtomsParse(ops, b) {
      forall i | 0 <= i < |a + b|
        ensures (a + b)[i].Constant? && ops.parse((a + b)[i].text).Some?
      {
        if i >= |a| {
          assert (a + b)[i] == b[i - |a|];
        }
      }
    }
    if AtomsParse(ops, a + b) {
      forall i | 0 <= i < |a|
        ensures a[i].Constant? && ops.parse(a[i].text).Some?
      {
        assert a[i] == (a + b)[i];
      }
      forall i | 0 <= i < |b|
        ensures b[i].Constant? && ops.parse(b[i].text).Some?
      {
        assert b[i] == (a + b)[|a| + i];
      }
    }
  }

  /** A successful evaluation reached only literals, and every one of them
      parsed: a reference, a call or an unparsable literal anywhere in the
      expression makes the whole expression fail. */
  lemma {:induction false} SuccessNeedsParsedLiterals(ops: FloatOps, e: AddExpr)
    ensures Eval(ops, e).Some? ==> AtomsParse(ops, Atoms(e))
  {
    match e
    case AddLeaf(m) => SuccessNeedsParsedLiteralsMul(ops, m);
    case AddNode(l, _, m) =>
      SuccessNeedsParsedLiterals(ops, l);
      SuccessNeedsParsedLiteralsMul(ops, m);
      AtomsParseAppend(ops, Atoms(l), MulAtoms(m));
  }

  lemma {:induction false} SuccessNeedsParsedLiteralsMul(ops: FloatOps, e: MulExpr)
    ensures EvalMul(ops, e).Some? ==> AtomsParse(ops, MulAtoms(e))
  {
    match e
    case MulLeaf(u) => SuccessNeedsParsedLiteralsUnary(ops, u);
    case MulNode(l, _, u) =>
      SuccessNeedsParsedLiteralsMul(ops, l);
      SuccessNeedsParsedLiteralsUnary(ops, u);
      AtomsParseAppend(ops, MulAtoms(l), UnaryAtoms(u));
  }

  lemma {:induction false} SuccessNeedsParsedLiteralsUnary(ops: FloatOps, u: Unary)
    ensures EvalUnary(ops, u).Some? ==> AtomsParse(ops, UnaryAtoms(u))
  {
    match u
    case UnaryPlus(x) => SuccessNeedsParsedLiterals(ops, x);
    case UnaryMinus(x) => SuccessNeedsParsedLiterals(ops, x);
    case Parentheses(x) => SuccessNeedsParsedLiterals(ops, x);
    case _ =>
  }

  // ---------------------------------------------------------------------
  // Unary minus is ignored

  predicate MinusFree(e: AddExpr) {
    match e
    case AddLeaf(m) => MulMinusFree(m)
    case AddNode(l, _, m) => MinusFree(l) && MulMinusFree(m)
  }

  predicate MulMinusFree(e: MulExpr) {
    match e
    case MulLeaf(u) => UnaryMinusFree(u)
    case MulNode(l, _, u) => MulMinusFree(l) && UnaryMinusFree(u)
  }

  predicate UnaryMinusFree(u: Unary) {
    match u
    case UnaryMinus(_) => false
    case UnaryPlus(x) => MinusFree(x)
    case Parentheses(x) => MinusFree(x)
    case _ => true
  }

  /** Every multiplicative operator the evaluator reaches is in `allowed`. */
  predicate OnlyMulOps(e: AddExpr, allowed: set<MulOp>) {
    match e
    case AddLeaf(m) => MulOnlyMulOps(m, allowed)
    case AddNode(l, _, m) => OnlyMulOps(l, allowed) && MulOnlyMulOps(m, allowed)
  }

  predicate MulOnlyMulOps(e: MulExpr, allowed: set<MulOp>) {
    match e
    case MulLeaf(u) => UnaryOnlyMulOps(u, allowed)
    case MulNode(l, op, u) => op in allowed && MulOnlyMulOps(l, allowed) && UnaryOnlyMulOps(u, allowed)
  }

  predicate UnaryOnlyMulOps(u: Unary, allowed: set<MulOp>) {
    match u
    case UnaryPlus(x) => OnlyMulOps(x, allowed)
    case UnaryMinus(x) => OnlyMulOps(x, allowed)
    case Parentheses(x) => OnlyMulOps(x, allowed)
    case _ => true
  }

  /** The expression with every unary minus replaced by parentheses. */
  function EraseMinus(e: AddExpr): (r: AddExpr)
    ensures MinusFree(r)
    ensures Atoms(r) == Atoms(e)
    ensures forall allowed: set<MulOp> :: OnlyMulOps(r, allowed) == OnlyMulOps(e, allowed)
  {
    match e
    case AddLeaf(m) => AddLeaf(EraseMinusMul(m))
    case AddNode(l, op, m) => AddNode(EraseMinus(l), op, EraseMinusMul(m))
  }

  function EraseMinusMul(e: MulExpr): (r: MulExpr)
    ensures MulMinusFree(r)
    ensures MulAtoms(r) == MulAtoms(e)
    ensures forall allowed: set<MulOp> :: MulOnlyMulOps(r, allowed) == MulOnlyMulOps(e, allowed)
  {
    match e
    case MulLeaf(u) => MulLeaf(EraseMinusUnary(u))
    case MulNode(l, op, u) => MulNode(EraseMinusMul(l), op, EraseMinusUnary(u))
  }

  function EraseMinusUnary(u: Unary): (r: Unary)
    ensures UnaryMinusFree(r)
    ensures UnaryAtoms(r) == UnaryAtoms(u)
    ensures forall allowed: set<MulOp> :: UnaryOnlyMulOps(r, allowed) == UnaryOnlyMulOps(u, allowed)
  {
    match u
    case UnaryMinus(x) => Parentheses(EraseMinus(x))
    case UnaryPlus(x) => UnaryPlus(EraseMinus(x))
    case Parentheses(x) => Parentheses(EraseMinus(x))
    case _ => u
  }

  /** The evaluator is blind to unary minus: erasing every one of them, at
      any depth, changes no result. */
  lemma {:induction false} EvalIgnoresUnaryMinus(ops: FloatOps, e: AddExpr)
    ensures Eval(ops, EraseMinus(e)) == Eval(ops, e)
  {
    match e
    case AddLeaf(m) => EvalIgnoresUnaryMinusMul(ops, m);
    case AddNode(l, _, m) =>
      EvalIgnoresUnaryMinus(ops, l);
      EvalIgnoresUnaryMinusMul(ops, m);
  }

  lemma {:induction false} EvalIgnoresUnaryMinusMul(ops: FloatOps, e: MulExpr)
    ensures EvalMul(ops, EraseMinusMul(e)) == EvalMul(ops, e)
  {
    match e
    case MulLeaf(u) => EvalIgnoresUnaryMinusUnary(ops, u);
    case MulNode(l, _, u) =>
      EvalIgnoresUnaryMinusMul(ops, l);
      EvalIgnoresUnaryMinusUnary(ops, u);
  }

  lemma {:induction false} EvalIgnoresUnaryMinusUnary(ops: FloatOps, u: Unary)
    ensures EvalUnary(ops, EraseMinusUnary(u)) == EvalUnary(ops, u)
  {
    match u
    case UnaryPlus(x) => EvalIgnoresUnaryMinus(ops, x);
    case UnaryMinus(x) => EvalIgnoresUnaryMinus(ops, x);
    case Parentheses(x) => EvalIgnoresUnaryMinus(ops, x);
    case _ =>
  }

  // ---------------------------------------------------------------------
  // Reference: textbook arithmetic

  /** Ordinary arithmetic over the same trees: unary minus negates, only
      division by exactly zero fails, and `%` is outside the reference. */
  function Arith(ops: FloatOps, e: AddExpr): Option<real> {
    match e
    case AddLeaf(m) => ArithMul(ops, m)
    case AddNode(l, op, m) => Additive(op, Arith(ops, l), ArithMul(ops, m))
  }

  /** One textbook `*` or `/` node; `%` has no reference value. */
  function ArithStep(op: MulOp, left: Option<real>, right: Option<real>): (r: Option<real>)
    ensures r.Some? <==> left.Some? && right.Some? && op != Modulo && (op == Divide ==> right.value != 0.0)
    ensures r.Some? && op == Times ==> r.value == left.value * right.value
    ensures r.Some? && op == Divide ==> r.value == left.value / right.value
  {
    if left.None? || right.None? || op == Modulo then None
    else if op == Times then Some(left.value * right.value)
    else if right.value == 0.0 then assert op == Divide; None
    else Some(left.value / right.value)
  }

  function ArithMul(ops: FloatOps, e: MulExpr): Option<real> {
    match e
    case MulLeaf(u) => ArithUnary(ops, u)
    case MulNode(l, op, u) => ArithStep(op, ArithMul(ops, l), ArithUnary(ops, u))
  }

  function ArithUnary(ops: FloatOps, u: Unary): Option<real> {
    match u
    case UnaryPlus(x) => Arith(ops, x)
    case UnaryMinus(x) =>
      var a := Arith(ops, x);
      if a.Some? then Some(-a.value) else None
    case Parentheses(x) => Arith(ops, x)
    case Constant(t) => ops.parse(t)
    case _ => None
  }

  /** Whenever the evaluator succeeds on an expression without `%`, its value
      is the textbook value of that expression with its unary minuses erased. */
  lemma {:induction false} AgreesWithArithmetic(ops: FloatOps, e: AddExpr)
    requires OnlyMulOps(e, {Times, Divide})
    ensures Eval(ops, e).Some? ==> Arith(ops, EraseMinus(e)) == Eval(ops, e)
  {
    match e
    case AddLeaf(m) => AgreesWithArithmeticMul(ops, m);
    case AddNode(l, _, m) =>
      AgreesWithArithmetic(ops, l);
      AgreesWithArithmeticMul(ops, m);
  }

  lemma {:induction false} AgreesWithArithmeticMul(ops: FloatOps, e: MulExpr)
    requires MulOnlyMulOps(e, {Times, Divide})
    ensures EvalMul(ops, e).Some? ==> ArithMul(ops, EraseMinusMul(e)) == EvalMul(ops, e)
  {
    match e
    case MulLeaf(u) => AgreesWithArithmeticUnary(ops, u);
    case MulNode(l, op, u) =>
      AgreesWithArithmeticMul(ops, l);
      AgreesWithArithmeticUnary(ops, u);
      assert op in {Times, Divide};
      if EvalMul(ops, e).Some? {
        var x, y := EvalMul(ops, l).value, EvalUnary(ops, u).value;
        if op == Times {
          assert EvalMul(ops, e) == Multiplicative(ops, Times, EvalMul(ops, l), EvalUnary(ops, u));
          assert EvalMul(ops, e).value == x * y;
          assert EraseMinusMul(e) == MulNode(EraseMinusMul(l), Times, EraseMinusUnary(u));
          assert ArithMul(ops, EraseMinusMul(e)) == ArithStep(Times, Some(x), Some(y));
          assert ArithStep(Times, Some(x), Some(y)).value == x * y;
        } else {
          assert op == Divide;
          assert !NearZero(EvalUnary(ops, u).value);
        }
      }
  }

  lemma {:induction false} AgreesWithArithmeticUnary(ops: FloatOps, u: Unary)
    requires UnaryOnlyMulOps(u, {Times, Divide})
    ensures EvalUnary(ops, u).Some? ==> ArithUnary(ops, EraseMinusUnary(u)) == EvalUnary(ops, u)
  {
    match u
    case UnaryPlus(x) => AgreesWithArithmetic(ops, x);
    case UnaryMinus(x) => AgreesWithArithmetic(ops, x);
    case Parentheses(x) => AgreesWithArithmetic(ops, x);
    case _ =>
  }

  // ---------------------------------------------------------------------
  // Integer constants fold to integers

  /** Every atom is a literal that parses to an integral value. */
  predicate AtomsIntegral(ops: FloatOps, atoms: seq<Unary>) {
    forall i :: 0 <= i < |atoms| ==>
      atoms[i].Constant? && ops.parse(atoms[i].text).Some? && IsIntegral(ops.parse(atoms[i].text).value)
  }

  lemma AtomsIntegralAppend(ops: FloatOps, a: seq<Unary>, b: seq<Unary>)
    requires AtomsIntegral(ops, a + b)
    ensures AtomsIntegral(ops, a) && AtomsIntegral(ops, b)
  {
    forall i | 0 <= i < |a|
      ensures a[i].Constant? && ops.parse(a[i].text).Some? && IsIntegral(ops.parse(a[i].text).value)
    {
      assert a[i] == (a + b)[i];
    }
    forall i | 0 <= i < |b|
      ensures b[i].Constant? && ops.parse(b[i].text).Some? && IsIntegral(ops.parse(b[i].text).value)
    {
      assert b[i] == (a + b)[|a| + i];
    }
  }

  lemma {:induction false} RealOfNatProduct(m: int, n: nat)
    ensures (m * n) as real == (m as real) * (n as real)
  {
    if n > 0 {
      RealOfNatProduct(m, n - 1);
      assert m * n == m * (n - 1) + m;
      assert (m as real) * (n as real) == (m as real) * ((n - 1) as real) + m as real;
    }
  }

  lemma RealOfProduct(m: int, n: int)
    ensures (m * n) as real == (m as real) * (n as real)
  {
    if n >= 0 {
      RealOfNatProduct(m, n);
    } else {
      RealOfNatProduct(m, -n);
      assert m * (-n) == -(m * n);
      assert (m as real) * ((-n) as real) == -((m as real) * (n as real));
    }
  }

  lemma IntegralClosed(x: real, y: real)
    requires IsIntegral(x) && IsIntegral(y)
    ensures IsIntegral(x + y) && IsIntegral(x - y) && IsIntegral(x * y)
  {
    var m, n := x.Floor, y.Floor;
    IntegralOfInt(m + n);
    IntegralOfInt(m - n);
    IntegralProduct(x, y);
  }

  lemma IntegralOfInt(k: int)
    ensures IsIntegral(k as real)
  {
  }

  lemma IntegralProduct(x: real, y: real)
    requires IsIntegral(x) && IsIntegral(y)
    ensures IsIntegral(x * y)
  {
    var m, n := x.Floor, y.Floor;
    RealOfProduct(m, n);
    var p := m * n;
    assert x * y == p as real;
    IntegralOfInt(p);
  }

  /** Literals with no fractional part, combined by `+`, `-` and `*` only,
      fold to a value with no fractional part (when they fold at all). */
  lemma {:induction false} IntegersFoldToIntegers(ops: FloatOps, e: AddExpr)
    requires OnlyMulOps(e, {Times})
    requires AtomsIntegral(ops, Atoms(e))
    ensures Eval(ops, e).Some? ==> IsIntegral(Eval(ops, e).value)
  {
    match e
    case AddLeaf(m) => IntegersFoldToIntegersMul(ops, m);
    case AddNode(l, _, m) =>
      AtomsIntegralAppend(ops, Atoms(l), MulAtoms(m));
      IntegersFoldToIntegers(ops, l);
      IntegersFoldToIntegersMul(ops, m);
      if Eval(ops, e).Some? {
        IntegralClosed(Eval(ops, l).value, EvalMul(ops, m).value);
      }
  }

  lemma {:induction false} IntegersFoldToIntegersMul(ops: FloatOps, e: MulExpr)
    requires MulOnlyMulOps(e, {Times})
    requires AtomsIntegral(ops, MulAtoms(e))
    ensures EvalMul(ops, e).Some? ==> IsIntegral(EvalMul(ops, e).value)
  {
    match e
    case MulLeaf(u) => IntegersFoldToIntegersUnary(ops, u);
    case MulNode(l, op, u) =>
      AtomsIntegralAppend(ops, MulAtoms(l), UnaryAtoms(u));
      IntegersFoldToIntegersMul(ops, l);
      IntegersFoldToIntegersUnary(ops, u);
      assert op == Times by { assert op in {Times}; }
      if EvalMul(ops, e).Some? {
        var x, y := EvalMul(ops, l).value, EvalUnary(ops, u).value;
        IntegralClosed(x, y);
        assert EvalMul(ops, e) == Multiplicative(ops, Times, EvalMul(ops, l), EvalUnary(ops, u));
        assert EvalMul(ops, e).value == x * y;
      }
  }

  lemma {:induction false} IntegersFoldToIntegersUnary(ops: FloatOps, u: Unary)
    requires UnaryOnlyMulOps(u, {Times})
    requires AtomsIntegral(ops, UnaryAtoms(u))
    ensures EvalUnary(ops, u).Some? ==> IsIntegral(EvalUnary(ops, u).value)
  {
    match u
    case UnaryPlus(x) => IntegersFoldToIntegers(ops, x);
    case UnaryMinus(x) => IntegersFoldToIntegers(ops, x);
    case Parentheses(x) => IntegersFoldToIntegers(ops, x);
    case Constant(_) => assert UnaryAtoms(u)[0] == u;
    case _ =>
  }

  // ---------------------------------------------------------------------
  // Worked examples

  function Lit(t: string): AddExpr {
    Lift(Constant(t))
  }

  function BinMul(a: string, op: MulOp, b: string): MulExpr {
    MulNode(MulLeaf(Constant(a)), op, Constant(b))
  }

  /** A literal alone folds, and evaluates by the reference, to its parse. */
  lemma LitFolds(ops: FloatOps, a: string)
    ensures EvalMul(ops, MulLeaf(Constant(a))) == ops.parse(a)
    ensures Eval(ops, Lit(a)) == ops.parse(a)
    ensures Arith(ops, Lit(a)) == ops.parse(a)
  {
    assert EvalUnary(ops, Constant(a)) == ops.parse(a);
    assert ArithMul(ops, MulLeaf(Constant(a))) == ArithUnary(ops, Constant(a)) == ops.parse(a);
  }

  /** A single operator node between two literals folds their parses. */
  lemma BinMulFolds(ops: FloatOps, a: string, op: MulOp, b: string)
    ensures EvalMul(ops, BinMul(a, op, b)) == Multiplicative(ops, op, ops.parse(a), ops.parse(b))
    ensures Eval(ops, AddLeaf(BinMul(a, op, b))) == Multiplicative(ops, op, ops.parse(a), ops.parse(b))
  {
    LitFolds(ops, a);
    assert EvalUnary(ops, Constant(b)) == ops.parse(b);
  }

  /** `2 + 3 * 4` folds to 14; `7.5 % 2`, `1 / 0.00001` and `3 * 0` fail; and,
      as written, `5 % 0` succeeds while `7 % 2` fails. */
  lemma FoldingExamples(ops: FloatOps)
    requires ops.parse("2") == Some(2.0) && ops.parse("3") == Some(3.0) && ops.parse("4") == Some(4.0)
    requires ops.parse("0") == Some(0.0) && ops.parse("1") == Some(1.0) && ops.parse("5") == Some(5.0)
    requires ops.parse("7") == Some(7.0) && ops.parse("7.5") == Some(7.5)
    requires ops.parse("0.00001") == Some(1.0 / 100000.0)
    ensures Eval(ops, AddNode(Lit("2"), Plus, BinMul("3", Times, "4"))) == Some(14.0)
    ensures Eval(ops, AddLeaf(BinMul("7.5", Modulo, "2"))).None?
    ensures Eval(ops, AddLeaf(BinMul("1", Divide, "0.00001"))).None?
    ensures Eval(ops, AddLeaf(BinMul("3", Times, "0"))).None?
    ensures Eval(ops, AddLeaf(BinMul("5", Modulo, "0"))) == Some(ops.remainder(5.0, 0.0))
    ensures Eval(ops, AddLeaf(BinMul("7", Modulo, "2"))).None?
  {
    LitFolds(ops, "2");
    BinMulFolds(ops, "3", Times, "4");
    BinMulFolds(ops, "7.5", Modulo, "2");
    BinMulFolds(ops, "1", Divide, "0.00001");
    BinMulFolds(ops, "3", Times, "0");
    BinMulFolds(ops, "5", Modulo, "0");
    BinMulFolds(ops, "7", Modulo, "2");
    assert Trunc(7.5) == 7;
    assert Trunc(5.0) == 5 && Trunc(0.0) == 0 && Trunc(7.0) == 7 && Trunc(2.0) == 2;
  }

  /** `-5` folds to 5, where textbook arithmetic gives -5. */
  lemma UnaryMinusDoesNotNegate(ops: FloatOps)
    requires ops.parse("5") == Some(5.0)
    ensures Eval(ops, Lift(UnaryMinus(Lit("5")))) == Some(5.0)
    ensures Arith(ops, Lift(UnaryMinus(Lit("5")))) == Some(-5.0)
  {
    SingleChildNodesAreTransparent(ops, Lit("5"), "5");
    LitFolds(ops, "5");
    assert ArithUnary(ops, UnaryMinus(Lit("5"))) == Some(-5.0);
    assert ArithMul(ops, MulLeaf(UnaryMinus(Lit("5")))) == Some(-5.0);
  }
}
