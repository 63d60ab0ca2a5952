# SysY constant folding, array initializers and index checks, in Dafny

This project models the analysis core of a SysY compiler front end. SysY is a
small C subset with `int`, `float` and `void` types. The core has four parts:

- **Constant folding** (`ConstantExpression`). Evaluates a constant
  expression over `+ - * / %`, unary signs, parentheses and literals. A
  result is `Some(value)` on success and `None` on failure. The source
  pairs every failure with a value too: NaN from an operator node, and zero
  from an unparsable literal or from a reference or call. The model drops
  that value.
- **Array initializer flattening** (`ArrayInitial`). Turns a nested brace
  initializer of a constant array into a flat value list, padding rows with
  zeros. The total size is computed with unchecked 32-bit multiplication.
- **Array index check** (`ArrayDimension`). A structural test that every
  subscript of an array access cannot produce a `float`. It reads names
  against a stack of scopes: innermost scope first for variables and arrays,
  the global scope only for calls.
- **Symbol-table entries** (`Symbols`, `BuiltIns`). The entry record with its
  nullability contract, the type and error enumerations, and the built-in
  routines seeded into the global scope.

The supporting modules are:

- `Wrappers`: `Option` and `Result`.
- `Numerics`: the `0.0001` threshold, `(int)` truncation and 32-bit wrap-around.
- `Syntax`: the expression trees and the initializer tree.

The grammar's single-child `expression`, `constExpression`, `primary` and
`leftValueAccess` nodes are folded into their child, since every analysis
passes straight through them.

The model follows the code as written, also where the code departs from
what a reader would expect of a SysY compiler: that `%` computes a
remainder and fails on a zero divisor, that unary minus negates, and that
an initializer flattens to one value per array element. The code does this
instead:

- **`%` succeeds only when its divisor is near zero.** `5 % 0` succeeds and
  `7 % 2` fails.
- **`*` fails on a near-zero right operand**, just as `/` does.
- **Unary minus does not negate.** `-5` folds to `5`.
- **A leaf's value is sought in its enclosing group.** For each leaf
  element, the flattener evaluates the constant expression of the
  *enclosing* group, not the element's own. A brace group has no constant
  expression of its own, so the evaluator is handed null and throws. The
  model raises `NullExpression` there. So `int a[2][3] = {1, 2, {3}}` and
  `int a[3] = {1}` both throw. Should a group carry a constant expression,
  `leaf(e)` stands for that expression's value. The parser never builds
  such a group, so every initializer it builds that flattens at all
  flattens to zeros.
- **Every nested group is preceded by a full padded row.** That row is all
  zeros when nothing is pending. So `int a[2] = {{1}, {2}}`, which nests
  deeper than its dimensions, flattens to two zeros.
- **Rows are sized `total / dimensions[0]`.** In one dimension that is a row
  of one value. So two pending leaves need a negative amount of padding and
  throw, even when their group has an expression.
- **The size product can overflow.** A product beyond `int` range wraps
  modulo 2^32. It can wrap to a negative capacity and throw, as
  `65536 * 32768` does. It can also wrap to zero or a positive value, as
  `65536 * 65536` does, and that wrapped value is then used as the total.

## Model

| member | source | states |
|---|---|---|
| ConstantExpression.Additive | SysY/Visitors/ConstantExpressionVisitor.cs:13-24 | an additive node succeeds exactly when both operands succeed, with the sum for `+` and the difference for `-` |
| ConstantExpression.Multiplicative | SysY/Visitors/ConstantExpressionVisitor.cs:26-45 | `*` and `/` succeed exactly when both operands succeed and the right one is not within 0.0001 of zero; `%` succeeds exactly when both operands are within 0.0001 of their truncation and the divisor is within 0.0001 of zero; product, quotient or remainder value |
| ConstantExpression.Eval | SysY/Visitors/ConstantExpressionVisitor.cs:7-24 | folds an expression tree; it has no contract of its own, and `SuccessNeedsParsedLiterals`, `EvalIgnoresUnaryMinus` and `AgreesWithArithmetic` state when it succeeds and what value it then has |
| ConstantExpression.EvalMul | SysY/Visitors/ConstantExpressionVisitor.cs:26-45 | folds a multiplicative node through `Multiplicative`; it has no contract of its own and is characterised by the same three lemmas |
| ConstantExpression.EvalUnary | SysY/Visitors/ConstantExpressionVisitor.cs:47-70 | unary signs and parentheses pass their operand's result through, a literal folds to its parse, and a reference or call fails; it has no contract of its own, and `SingleChildNodesAreTransparent` and `SuccessNeedsParsedLiterals` state this |
| ConstantExpression.SingleChildNodesAreTransparent | SysY/Visitors/ConstantExpressionVisitor.cs:47-70 | a literal alone folds to its parsed text, and unary `+`, unary `-` and parentheses hand back their operand's result unchanged |
| ConstantExpression.SuccessNeedsParsedLiterals | SysY/Visitors/ConstantExpressionVisitor.cs:13-70 | a successful fold reached only literals, all of which parsed: any reference, call or unparsable literal makes the whole expression fail |
| ConstantExpression.EvalIgnoresUnaryMinus | SysY/Visitors/ConstantExpressionVisitor.cs:47-52 | erasing every unary minus at any depth changes no result |
| ConstantExpression.AgreesWithArithmetic | SysY/Visitors/ConstantExpressionVisitor.cs:13-45 | on an expression without `%`, a successful fold equals textbook arithmetic on the same expression with its unary minuses erased |
| ConstantExpression.IntegersFoldToIntegers | SysY/Visitors/ConstantExpressionVisitor.cs:13-45 | integral literals joined by `+`, `-` and `*` fold, when they fold, to an integral value |
| ConstantExpression.FoldingExamples | SysY/Visitors/ConstantExpressionVisitor.cs:37-44 | `2 + 3 * 4` is 14; `7.5 % 2`, `1 / 0.00001` and `3 * 0` fail; `5 % 0` succeeds and `7 % 2` fails |
| ConstantExpression.UnaryMinusDoesNotNegate | SysY/Visitors/ConstantExpressionVisitor.cs:47-52 | `-5` folds to 5 where textbook arithmetic gives -5 |
| Numerics.Trunc | SysY/Visitors/ConstantExpressionVisitor.cs:41 | the `(int)` cast truncates toward zero: the result lies within one of its argument, on the zero side |
| Numerics.Wrap32 | SysY/Utils/ArrayInitialVisitor.cs:9 | an unchecked `int` result lies in 32-bit range, is congruent to the exact value modulo 2^32, and equals it when that is in range |
| Symbols.Code | SysY/Entry.cs:37-68 | a kind's underlying value is its 1-based position in declaration order, from `VarUnknown` = 1 to `VisitVariableError` = 10 |
| Symbols.FromCode | SysY/Entry.cs:37-68 | a value names an error kind exactly when it lies between 1 and 10, and then names the kind whose value it is |
| Symbols.CodeIsBijective | SysY/Entry.cs:37-68 | distinct error kinds have distinct values, and decoding a kind's value gives the kind back |
| Symbols.ConstantOf | SysY/Entry.cs:12-13 | a well-formed const entry has a constant value |
| Symbols.ParamsOf | SysY/Entry.cs:15-16 | a well-formed function entry has a parameter list |
| Symbols.DimensionsOf | SysY/Entry.cs:18-19 | a well-formed array entry has a dimension list |
| BuiltIns.FunctionEntry | SysY/BuiltInFunctions.cs:22-37 | a built-in function entry is well formed, is a function and neither an array nor a const, has its return type as its type, and carries its parameter list |
| BuiltIns.BuiltInScope | SysY/BuiltInFunctions.cs:22-37 | every entry of the built-in table is a well-formed function entry, and of them exactly `getint`, `getch` and `getarray` return `int` |
| BuiltIns.BuiltInNames | SysY/BuiltInFunctions.cs:22-37 | the table declares exactly the thirteen routines `getint` to `stoptime`, the three `int` routines among them |
| BuiltIns.ListedNames | SysY/BuiltInFunctions.cs:5-20 | the name list holds exactly the thirteen routine names |
| BuiltIns.ListedOnce | SysY/BuiltInFunctions.cs:5-20 | the name list names each routine once |
| BuiltIns.NameListMatchesTable | SysY/BuiltInFunctions.cs:5-37 | a routine is on the name list exactly when the table declares it |
| ArrayDimension.Then | SysY/Utils/ArrayDimensionVisitor.cs:32-48 | short-circuit `&&`: accepts exactly when both sides accept, and the second side is consulted only after the first accepts |
| ArrayDimension.Resolve | SysY/Utils/ArrayDimensionVisitor.cs:93-97 | a found entry is the one some scope of the stack holds under the name; `ResolveInnermostFirst` fixes which scope |
| ArrayDimension.ResolveInnermostFirst | SysY/Utils/ArrayDimensionVisitor.cs:89-98 | lookup fails exactly when no scope holds the name, and otherwise yields the entry of the innermost scope that holds it |
| ArrayDimension.NameVerdict | SysY/Utils/ArrayDimensionVisitor.cs:100-109 | a variable reference is rejected exactly when the innermost entry for its name is declared `float`; an unknown name passes; it never throws |
| ArrayDimension.CallVerdict | SysY/Utils/ArrayDimensionVisitor.cs:58-63 | a call throws exactly when the scope stack is empty, and passes exactly when the global scope holds the name with type `int` |
| ArrayDimension.ConstantVerdict | SysY/Utils/ArrayDimensionVisitor.cs:77-81 | a literal passes exactly when its text parses as a 32-bit integer that is not negative |
| ArrayDimension.AtomVerdict | SysY/Utils/ArrayDimensionVisitor.cs:58-109 | only a call can throw, and only when the scope stack is empty |
| ArrayDimension.Check | SysY/Utils/ArrayDimensionVisitor.cs:26-39 | the check of an additive node throws only on an empty stack; `CheckIsScanOfAtoms` equates it with the scan of its atoms |
| ArrayDimension.CheckMul | SysY/Utils/ArrayDimensionVisitor.cs:41-48 | the check of a multiplicative node throws only on an empty stack; characterised by `CheckIsScanOfAtoms` |
| ArrayDimension.CheckUnary | SysY/Utils/ArrayDimensionVisitor.cs:50-87 | throws only on an empty stack; `CheckIsScanOfAtomsUnary` shows that signs and parentheses pass the check through to their operand and that an atom gets its own verdict |
| ArrayDimension.Scan | SysY/Utils/ArrayDimensionVisitor.cs:32-48 | the reference check over a list of atoms: it accepts exactly when every atom accepts, otherwise yields the verdict of the leftmost atom that does not pass, and throws only on an empty stack |
| ArrayDimension.CheckIsScanOfAtoms | SysY/Utils/ArrayDimensionVisitor.cs:26-87 | the structural walk through operators, signs and parentheses equals the left-to-right scan of the expression's atoms |
| ArrayDimension.IndexPassesIffEveryAtomPasses | SysY/Utils/ArrayDimensionVisitor.cs:26-87 | an index expression passes exactly when each of its atoms passes, otherwise takes the verdict of its leftmost atom that does not pass, and never throws while a global scope exists |
| ArrayDimension.AnalyseArrayDimension | SysY/Utils/ArrayDimensionVisitor.cs:12-24 | an array access passes exactly when every subscript passes; otherwise the verdict is that of the first subscript that does not pass |
| ArrayDimension.ArraySubscriptsNotExamined | SysY/Utils/ArrayDimensionVisitor.cs:89-98 | an array element inside an index is judged by its name alone, like a plain variable; its own subscripts are never examined |
| ArrayDimension.CallReadsOnlyGlobalScope | SysY/Utils/ArrayDimensionVisitor.cs:58-63 | scopes pushed above the global one never change a call's verdict |
| ArrayDimension.CallExamples | SysY/Utils/ArrayDimensionVisitor.cs:58-63 | over the built-ins and two nested blocks: `getint()` passes; `getfloat()`, the `void` `putint()` and a call of a local `i` fail; with no scope a call throws |
| ArrayDimension.ShadowingExample | SysY/Utils/ArrayDimensionVisitor.cs:100-109 | an inner `float i` shadows an outer `int i`, which passes on its own |
| ArrayDimension.FloatArrayExample | SysY/Utils/ArrayDimensionVisitor.cs:89-98 | the element `f[2]` of a `float` array `f` fails on the array's element type |
| ArrayDimension.UndeclaredNameExample | SysY/Utils/ArrayDimensionVisitor.cs:100-109 | a name that no scope declares passes |
| ArrayDimension.LiteralExamples | SysY/Utils/ArrayDimensionVisitor.cs:77-81 | `2` passes; `1.5`, which does not parse, and the literal text `-1` fail; the index `-1` as written, a unary minus around `1`, passes |
| ArrayInitial.Aggregate | SysY/Utils/ArrayInitialVisitor.cs:9 | the running product with unchecked multiplication stays in 32-bit range; `AggregateIsProduct` equates it with the exact product while that fits |
| ArrayInitial.AggregateIsProduct | SysY/Utils/ArrayInitialVisitor.cs:9 | the unchecked left fold equals the exact product of the dimensions while that product fits in an `int` |
| ArrayInitial.InitialTotal | SysY/Utils/ArrayInitialVisitor.cs:9 | the initial total is 1 for no dimensions, the product whenever that fits in an `int`, and always a 32-bit value |
| ArrayInitial.RowTotalIsProductOfRest | SysY/Utils/ArrayInitialVisitor.cs:26-28 | dividing the total by the outer dimension leaves exactly the product of the remaining dimensions |
| ArrayInitial.PadRow | SysY/Utils/ArrayInitialVisitor.cs:26 | padding succeeds exactly when the pending row is no longer than the row size; it then keeps the pending values and fills the rest of the row with zeros; otherwise it throws on a negative count |
| ArrayInitial.FlushRow | SysY/Utils/ArrayInitialVisitor.cs:34-38 | at the end of a group an empty pending row adds nothing, and a non-empty one is padded and appended or throws when too long |
| ArrayInitial.VisitArrayInitial | SysY/Utils/ArrayInitialVisitor.cs:7-11 | no dimensions give an empty list; a product that fits in an `int` is the walk's total; a product that wraps negative throws on the list capacity |
| ArrayInitial.Flatten | SysY/Utils/ArrayInitialVisitor.cs:13-41 | the recursive flattener of one group; it has no contract of its own, and `VisitArrayInitial`, `LeafOnlyGroup`, `OneDimensionalShape` and `FlattenValuesFromTree` characterise it |
| ArrayInitial.Walk | SysY/Utils/ArrayInitialVisitor.cs:18-40 | the loop over a group's elements; it has no contract of its own, and `WalkExtendsAcc`, `GroupFlushesRow`, `LeafUnderBracesFails` and `OneDimensionalShape` characterise it |
| ArrayInitial.WalkExtendsAcc | SysY/Utils/ArrayInitialVisitor.cs:18-40 | values already emitted stay a prefix of the result |
| ArrayInitial.WalkOverLeaves | SysY/Utils/ArrayInitialVisitor.cs:20-23 | for a group with a constant expression, a trailing run of leaf elements appends that expression's value once per leaf to the pending row, which is then flushed |
| ArrayInitial.LeafOnlyGroup | SysY/Utils/ArrayInitialVisitor.cs:13-41 | a group of k leaves throws at once without a constant expression; with one it yields one row, k copies of its value followed by zeros, or throws when k exceeds the row size |
| ArrayInitial.EmptyInitializer | SysY/Utils/ArrayInitialVisitor.cs:15-40 | with at least one dimension left and a non-negative total, an initializer with no elements yields nothing |
| ArrayInitial.GroupFlushesRow | SysY/Utils/ArrayInitialVisitor.cs:24-31 | a nested group throws when the pending row is too long; otherwise it emits the padded pending row and then its own flattening with the row size as total, and restarts with an empty row |
| ArrayInitial.LeadingGroupEmitsZeroRow | SysY/Utils/ArrayInitialVisitor.cs:24-31 | an initializer that opens with a nested group starts with a full row of zeros |
| ArrayInitial.OneDimensionalShape | SysY/Utils/ArrayInitialVisitor.cs:13-41 | in one dimension, a group with a constant expression flattens exactly when no run of consecutive leaves exceeds the row size, to one row per nested group plus one for a trailing run; a group without one flattens exactly when it has no leaf, to one row of zeros per nested group |
| ArrayInitial.FlattenValuesFromTree | SysY/Utils/ArrayInitialVisitor.cs:13-41 | every value produced is a padding zero or the value of the constant expression of a group in the initializer's own tree that holds a leaf element: a leaf takes its enclosing group's value, not its own |
| ArrayInitial.ParsedInitializerFlattensToZeros | SysY/Utils/ArrayInitialVisitor.cs:20-23 | when, as the parser builds them, no node has both a constant expression and elements, every successful flattening is all zeros |
| ArrayInitial.LeafUnderBracesFails | SysY/Utils/ArrayInitialVisitor.cs:20-23 | with at least one dimension left and a non-negative total, a group with no constant expression that holds a leaf element fails |
| ArrayInitial.LeafExamplesThrow | SysY/Utils/ArrayInitialVisitor.cs:22-23 | `int a[2][3] = {1, 2, {3}}` and `int a[3] = {1}` throw at their first leaf on the missing expression |
| ArrayInitial.TooManyLeavesExample | SysY/Utils/ArrayInitialVisitor.cs:34-38 | a group with its own expression and two leaves, for `a[3]`, throws on a negative padding count |
| ArrayInitial.OverNestedExample | SysY/Utils/ArrayInitialVisitor.cs:24-31 | `int a[2] = {{1}, {2}}` yields two zeros: one padded row per inner group, whose contents are never looked at |
| ArrayInitial.OverflowExample | SysY/Utils/ArrayInitialVisitor.cs:9-18 | dimensions `[65536, 32768]` wrap the total to `int.MinValue` and throw on the list capacity |
| ArrayInitial.ZeroWrapExample | SysY/Utils/ArrayInitialVisitor.cs:9-18 | dimensions `[65536, 65536]` wrap the total to 0, a valid capacity, and an empty initializer then yields the empty list |

## Left out

- Float rounding. Values are mathematical reals, so single-precision rounding,
  NaN and infinities are not modelled.
- Literal parsing. `float.TryParse` and `Int32.TryParse` are parameters
  (`FloatOps.parse`, `parseInt32`). Their grammars are not modelled.
- ArrayDimension.ConstantVerdict: the parameter `parseInt32` is not
  constrained to return 32-bit values, so the model does not enforce the
  `int` range that `Int32.TryParse` guarantees. The verdict only depends on
  the parsed value being present and not negative.
- ConstantExpression.Multiplicative: the value of a successful `%` is left to
  the parameter `FloatOps.remainder`, because the float remainder of a
  divisor within 0.0001 of zero is a floating-point detail. The contract
  fixes when `%` succeeds, not the value.
- Numerics.Trunc: overflow of the `(int)` cast on values beyond 32-bit range
  is not modelled, because C# leaves it unspecified for unchecked casts.
- ArrayInitial.Walk: when a leaf's enclosing group has a constant
  expression, the value appended is the parameter `leaf` applied to it. The
  source appends the value half of the evaluator's result and ignores the
  success flag, so a failed evaluation contributes NaN or zero there. The
  model does not tie `leaf` to the evaluator, so it does not pin that value.
- ArrayInitial.VisitArrayInitial: it requires every dimension to be a
  positive `int`. Zero or negative dimensions are outside the model. A zero
  dimension divides by zero at SysY/Utils/ArrayInitialVisitor.cs:26 and 36
  whenever a nested group or a non-empty pending row is reached; before that
  the walk may finish or throw for another reason. The callers that build
  dimension lists are not part of this model.
- The parser and the visitor plumbing are not modelled. This covers the
  base visitor's default singletons, the `SymbolTables` property kept
  between calls, and `Visit` dispatch.
- SysY/StaticSemanticChecker.cs has no logic of its own. The error
  reporting in SysY/ErrorReporter.cs and SysY/ErrorInfo.cs and the test
  reporter are not modelled either.
- The error kinds' descriptions (display strings) are not modelled.
- `Entry.CreateFunction`, `Entry.CreateArray` and `Entry.CreateVariable`
  are not part of this model. Their results are modelled by
  `BuiltIns.FunctionEntry`, `BuiltIns.ArrayParam` and `BuiltIns.ScalarParam`,
  whose field values are inferred from how the table uses them.
- BuiltIns.FunctionEntry: no name is passed when a built-in entry is
  created, so the model leaves the name empty. Whether the factory sets it,
  or leaves it null, cannot be told without the factory.
- Symbols.WellFormed: the nullability contract is stated per entry. It is
  not carried recursively into a function's parameter entries.
