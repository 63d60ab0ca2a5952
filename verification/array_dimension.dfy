/** The array-index integer-safety check: a conservative, structural test
    that an index expression cannot produce a float, read against a stack of
    scopes. */
module ArrayDimension {
  import opened Wrappers
  import opened Symbols
  import opened Syntax
  import opened BuiltIns

  /** What the check yields: `true`, `false`, or the exception raised when
      the global scope `SymbolTables[0]` is read from an empty stack. */
  datatype Verdict = Accept | Reject | ScopeIndexOutOfRange

  /** C#'s short-circuit `first && second` over verdicts: `second` only
      matters once `first` has accepted. */
  function Then(first: Verdict, second: Verdict): (r: Verdict)
    ensures r == Accept <==> first == Accept && second == Accept
    ensures first != Accept ==> r == first
    ensures first == Accept ==> r == second
  {
    if first == Accept then second else first
  }

  // ---------------------------------------------------------------------
  // Name resolution

  /** Innermost-first lookup: the scopes are searched from the last one down
      to index 0 and the first scope holding the name decides. */
  function Resolve(scopes: ScopeStack, name: string): (r: Option<Entry>)
    ensures r.Some? ==> exists i :: 0 <= i < |scopes| && name in scopes[i] && scopes[i][name] == r.value
    decreases |scopes|
  {
    if |scopes| == 0 then None
    else if name in scopes[|scopes| - 1] then Some(scopes[|scopes| - 1][name])
    else Resolve(scopes[..|scopes| - 1], name)
  }

  /** Lookup fails exactly when no scope holds the name, and otherwise yields
      the entry of the innermost scope that holds it. */
  lemma {:induction false} ResolveInnermostFirst(scopes: ScopeStack, name: string)
    ensures Resolve(scopes, name).None? <==> forall i :: 0 <= i < |scopes| ==> name !in scopes[i]
    ensures forall i :: 0 <= i < |scopes| && name in scopes[i]
                        && (forall j :: i < j < |scopes| ==> name !in scopes[j])
                        ==> Resolve(scopes, name) == Some(scopes[i][name])
    decreases |scopes|
  {
    if |scopes| > 0 {
      var init := scopes[..|scopes| - 1];
      ResolveInnermostFirst(init, name);
      assert forall i :: 0 <= i < |init| ==> init[i] == scopes[i];
    }
  }

  // ---------------------------------------------------------------------
  // Atoms

  /** `VisitVariableAccess` and `VisitArrayAccess`: a name passes unless the
      innermost entry for it is declared `float`; an unknown name passes. */
  function NameVerdict(scopes: ScopeStack, name: string): (r: Verdict)
    ensures r != ScopeIndexOutOfRange
    ensures r == Reject <==> exists e :: Resolve(scopes, name) == Some(e) && e.declaredType == Float
  {
    match Resolve(scopes, name)
    case None => Accept
    case Some(e) => if e.declaredType == Float then Reject else Accept
  }

  /** `VisitFunctionCall`: only the global scope is consulted, and the call
      passes when the name is there with type `int`, whether or not that
      entry is a function. */
  function CallVerdict(scopes: ScopeStack, name: string): (r: Verdict)
    ensures r == ScopeIndexOutOfRange <==> |scopes| == 0
    ensures r == Accept <==> |scopes| > 0 && name in scopes[0] && scopes[0][name].declaredType == Int
  {
    if |scopes| == 0 then ScopeIndexOutOfRange
    else if name in scopes[0] && scopes[0][name].declaredType == Int then Accept
    else Reject
  }

  /** `VisitConstant`: the literal's text must parse as a 32-bit integer
      (`parseInt32`, standing for `Int32.TryParse`) that is not negative. */
  function ConstantVerdict(parseInt32: string -> Option<int>, text: string): (r: Verdict)
    ensures r == Accept <==> parseInt32(text).Some? && parseInt32(text).value >= 0
    ensures r != ScopeIndexOutOfRange
  {
    match parseInt32(text)
    case Some(v) => if v >= 0 then Accept else Reject
    case None => Reject
  }

  /** The verdict on one atom: only a call can throw, and only on an empty stack. */
  function AtomVerdict(parseInt32: string -> Option<int>, scopes: ScopeStack, u: Unary): (r: Verdict)
    requires IsAtom(u)
    ensures r == ScopeIndexOutOfRange <==> u.FunctionCall? && |scopes| == 0
  {
    match u
    case Constant(t) => ConstantVerdict(parseInt32, t)
    case VariableAccess(n) => NameVerdict(scopes, n)
    case ArrayAccess(n, _) => NameVerdict(scopes, n)
    case FunctionCall(n, _) => CallVerdict(scopes, n)
  }

  // ---------------------------------------------------------------------
  // The structural walk

  /** `VisitExpression` / `VisitAdditiveExpression`: the operator is irrelevant. */
  function Check(parseInt32: string -> Option<int>, scopes: ScopeStack, e: AddExpr): (r: Verdict)
    ensures r == ScopeIndexOutOfRange ==> |scopes| == 0
  {
    match e
    case AddLeaf(m) => CheckMul(parseInt32, scopes, m)
    case AddNode(l, _, m) => Then(Check(parseInt32, scopes, l), CheckMul(parseInt32, scopes, m))
  }

  /** `VisitMultiplicativeExpression`. */
  function CheckMul(parseInt32: string -> Option<int>, scopes: ScopeStack, e: MulExpr): (r: Verdict)
    ensures r == ScopeIndexOutOfRange ==> |scopes| == 0
  {
    match e
    case MulLeaf(u) => CheckUnary(parseInt32, scopes, u)
    case MulNode(l, _, u) => Then(CheckMul(parseInt32, scopes, l), CheckUnary(parseInt32, scopes, u))
  }

  /** `VisitUnaryPlus`, `VisitUnaryMinus`, `VisitParentheses`, `VisitPrimary`,
      `VisitLeftValueAccess` pass through; atoms are judged by `AtomVerdict`.
      An array element used inside an index is judged by its name alone. */
  function CheckUnary(parseInt32: string -> Option<int>, scopes: ScopeStack, u: Unary): (r: Verdict)
    ensures r == ScopeIndexOutOfRange ==> |scopes| == 0
  {
    match u
    case UnaryPlus(x) => Check(parseInt32, scopes, x)
    case UnaryMinus(x) => Check(parseInt32, scopes, x)
    case Parentheses(x) => Check(parseInt32, scopes, x)
    case _ => AtomVerdict(parseInt32, scopes, u)
  }

  // ---------------------------------------------------------------------
  // Reference: the atoms scanned left to right

  predicate AllAtoms(atoms: seq<Unary>) {
    forall i :: 0 <= i < |atoms| ==> IsAtom(atoms[i])
  }

  /** The verdict of the first atom that does not pass, or `Accept`: the
      atoms before the deciding one all pass. */
  function Scan(parseInt32: string -> Option<int>, scopes: ScopeStack, atoms: seq<Unary>): (r: Verdict)
    requires AllAtoms(atoms)
    ensures r == Accept <==> forall i :: 0 <= i < |atoms| ==> AtomVerdict(parseInt32, scopes, atoms[i]) == Accept
    ensures r != Accept ==>
      exists i :: 0 <= i < |atoms| && AtomVerdict(parseInt32, scopes, atoms[i]) == r
                  && forall j :: 0 <= j < i ==> AtomVerdict(parseInt32, scopes, atoms[j]) == Accept
    ensures r == ScopeIndexOutOfRange ==> |scopes| == 0
  {
    if |atoms| == 0 then Accept
    else Then(AtomVerdict(parseInt32, scopes, atoms[0]), Scan(parseInt32, scopes, atoms[1..]))
  }

  lemma {:induction false} ScanAppend(parseInt32: string -> Option<int>, scopes: ScopeStack, a: seq<Unary>, b: seq<Unary>)
    requires AllAtoms(a) && AllAtoms(b)
    ensures AllAtoms(a + b)
    ensures Scan(parseInt32, scopes, a + b) == Then(Scan(parseInt32, scopes, a), Scan(parseInt32, scopes, b))
    decreases |a|
  {
    assert AllAtoms(a + b) by {
      forall i | 0 <= i < |a + b| ensures IsAtom((a + b)[i]) {
        if i >= |a| {
          assert (a + b)[i] == b[i - |a|];
        }
      }
    }
    if |a| > 0 {
      assert (a + b)[1..] == a[1..] + b;
      ScanAppend(parseInt32, scopes, a[1..], b);
    } else {
      assert a + b == b;
    }
  }

  /** The structural walk is exactly a left-to-right scan of the expression's
      atoms that stops at the first one that does not pass. */
  lemma {:induction false} CheckIsScanOfAtoms(parseInt32: string -> Option<int>, scopes: ScopeStack, e: AddExpr)
    ensures Check(parseInt32, scopes, e) == Scan(parseInt32, scopes, Atoms(e))
  {
    match e
    case AddLeaf(m) => CheckIsScanOfAtomsMul(parseInt32, scopes, m);
    case AddNode(l, _, m) =>
      CheckIsScanOfAtoms(parseInt32, scopes, l);
      CheckIsScanOfAtomsMul(parseInt32, scopes, m);
      ScanAppend(parseInt32, scopes, Atoms(l), MulAtoms(m));
  }

  lemma {:induction false} CheckIsScanOfAtomsMul(parseInt32: string -> Option<int>, scopes: ScopeStack, e: MulExpr)
    ensures CheckMul(parseInt32, scopes, e) == Scan(parseInt32, scopes, MulAtoms(e))
  {
    match e
    case MulLeaf(u) => CheckIsScanOfAtomsUnary(parseInt32, scopes, u);
    case MulNode(l, _, u) =>
      CheckIsScanOfAtomsMul(parseInt32, scopes, l);
      CheckIsScanOfAtomsUnary(parseInt32, scopes, u);
      ScanAppend(parseInt32, scopes, MulAtoms(l), UnaryAtoms(u));
  }

  lemma {:induction false} CheckIsScanOfAtomsUnary(parseInt32: string -> Option<int>, scopes: ScopeStack, u: Unary)
    ensures CheckUnary(parseInt32, scopes, u) == Scan(parseInt32, scopes, UnaryAtoms(u))
  {
    match u
    case UnaryPlus(x) => CheckIsScanOfAtoms(parseInt32, scopes, x);
    case UnaryMinus(x) => CheckIsScanOfAtoms(parseInt32, scopes, x);
    case Parentheses(x) => CheckIsScanOfAtoms(parseInt32, scopes, x);
    case _ =>
      assert UnaryAtoms(u) == [u];
      assert Scan(parseInt32, scopes, [u]) == Then(AtomVerdict(parseInt32, scopes, u), Accept);
  }

  /** An index expression passes exactly when every atom in it passes;
      otherwise its verdict is that of the leftmost atom that does not pass;
      and with a global scope present the check never throws. */
  lemma IndexPassesIffEveryAtomPasses(parseInt32: string -> Option<int>, scopes: ScopeStack, e: AddExpr)
    ensures Check(parseInt32, scopes, e) == Accept <==>
      forall i :: 0 <= i < |Atoms(e)| ==> AtomVerdict(parseInt32, scopes, Atoms(e)[i]) == Accept
    ensures Check(parseInt32, scopes, e) != Accept ==>
      exists i :: 0 <= i < |Atoms(e)| && AtomVerdict(parseInt32, scopes, Atoms(e)[i]) == Check(parseInt32, scopes, e)
                  && forall j :: 0 <= j < i ==> AtomVerdict(parseInt32, scopes, Atoms(e)[j]) == Accept
    ensures |scopes| > 0 ==> Check(parseInt32, scopes, e) != ScopeIndexOutOfRange
  {
    CheckIsScanOfAtoms(parseInt32, scopes, e);
  }

  // ---------------------------------------------------------------------
  // The entry point

  /** `AnalyseArrayDimension`: every subscript of an array access is checked
      in order, and the first one that does not pass decides. */
  method AnalyseArrayDimension(parseInt32: string -> Option<int>, access: Unary, scopes: ScopeStack)
    returns (v: Verdict)
    requires access.ArrayAccess?
    ensures v == Accept <==>
      forall i :: 0 <= i < |access.indices| ==> Check(parseInt32, scopes, access.indices[i]) == Accept
    ensures v != Accept ==>
      exists i :: 0 <= i < |access.indices| && Check(parseInt32, scopes, access.indices[i]) == v
                  && forall j :: 0 <= j < i ==> Check(parseInt32, scopes, access.indices[j]) == Accept
  {
    var k := 0;
    while k < |access.indices|
      invariant 0 <= k <= |access.indices|
      invariant forall j :: 0 <= j < k ==> Check(parseInt32, scopes, access.indices[j]) == Accept
    {
      var r := Check(parseInt32, scopes, access.indices[k]);
      if r != Accept {
        return r;
      }
      k := k + 1;
    }
    return Accept;
  }

  // ---------------------------------------------------------------------
  // Reference and call atoms

  /** An array element inside an index is judged by its name's entry alone:
      its own subscripts are never looked at. */
  lemma ArraySubscriptsNotExamined(parseInt32: string -> Option<int>, scopes: ScopeStack, name: string, indices: seq<AddExpr>)
    ensures CheckUnary(parseInt32, scopes, ArrayAccess(name, indices))
         == CheckUnary(parseInt32, scopes, VariableAccess(name))
  {
  }

  /** A call is judged by the global scope alone: scopes pushed above it do
      not change the verdict, even when they declare the callee's name. */
  lemma CallReadsOnlyGlobalScope(parseInt32: string -> Option<int>, scopes: ScopeStack, inner: seq<Scope>,
                                 name: string, args: seq<AddExpr>)
    requires |scopes| > 0
    ensures CheckUnary(parseInt32, scopes + inner, FunctionCall(name, args))
         == CheckUnary(parseInt32, [scopes[0]], FunctionCall(name, args))
  {
    assert (scopes + inner)[0] == scopes[0];
  }

  function Variable(name: string, t: SysYType): Entry {
    Entry(name, t, false, false, false, None, None, None)
  }

  /** An array of element type `t` with dimensions `dims`. */
  function ArrayVariable(name: string, t: SysYType, dims: seq<int>): Entry {
    Entry(name, t, false, false, true, Some(dims), None, None)
  }

  /** The block declaring an `int i` and a `float f[3]`. */
  function Block(): Scope {
    map["i" := Variable("i", Int), "f" := ArrayVariable("f", Float, [3])]
  }

  /** The built-in global scope, `Block()`, and an inner block redeclaring
      `i` as `float`. */
  function ExampleScopes(): ScopeStack {
    [BuiltInScope(), Block(), map["i" := Variable("i", Float)]]
  }

  /** Calls consult the global scope only: `getint()` passes, while
      `getfloat()`, the `void` routine `putint()` and a call of the local
      `i` do not; with no scope at all a call throws. */
  lemma CallExamples(parseInt32: string -> Option<int>)
    ensures CheckUnary(parseInt32, ExampleScopes(), FunctionCall("getint", [])) == Accept
    ensures CheckUnary(parseInt32, ExampleScopes(), FunctionCall("getfloat", [])) == Reject
    ensures CheckUnary(parseInt32, ExampleScopes(), FunctionCall("putint", [])) == Reject
    ensures CheckUnary(parseInt32, ExampleScopes(), FunctionCall("i", [])) == Reject
    ensures CheckUnary(parseInt32, [], FunctionCall("getint", [])) == ScopeIndexOutOfRange
  {
    assert "i" !in BuiltInScope();
  }

  /** References resolve innermost first: the inner `float i` shadows the
      block's `int i`, and the block alone accepts `i`. */
  lemma ShadowingExample(parseInt32: string -> Option<int>)
    ensures CheckUnary(parseInt32, ExampleScopes(), VariableAccess("i")) == Reject
    ensures CheckUnary(parseInt32, ExampleScopes()[..2], VariableAccess("i")) == Accept
  {
    var scopes := ExampleScopes();
    assert Resolve(scopes, "i") == Some(Variable("i", Float));
    assert scopes[..2] == [BuiltInScope(), Block()];
    assert Resolve([BuiltInScope(), Block()], "i") == Some(Variable("i", Int));
  }

  /** An element `f[2]` of the `float` array `f` is rejected on the array's
      element type; `ArraySubscriptsNotExamined` extends this to any
      subscripts. */
  lemma FloatArrayExample(parseInt32: string -> Option<int>)
    ensures CheckUnary(parseInt32, ExampleScopes(), ArrayAccess("f", [Lift(Constant("2"))])) == Reject
  {
    var scopes := ExampleScopes();
    assert "f" !in scopes[2];
    assert Resolve(scopes, "f") == Resolve(scopes[..2], "f");
    assert scopes[..2] == [BuiltInScope(), Block()];
    assert Resolve([BuiltInScope(), Block()], "f") == Some(ArrayVariable("f", Float, [3]));
  }

  /** A name no scope declares passes. */
  lemma UndeclaredNameExample(parseInt32: string -> Option<int>)
    ensures CheckUnary(parseInt32, ExampleScopes(), VariableAccess("z")) == Accept
  {
    var scopes := ExampleScopes();
    assert "z" !in scopes[2];
    assert scopes[..2] == [BuiltInScope(), Block()];
    assert "z" !in Block();
    assert [BuiltInScope(), Block()][..1] == [BuiltInScope()];
    assert "z" !in BuiltInScope();
    assert [BuiltInScope()][..0] == [];
    assert Resolve(scopes, "z") == None;
  }

  /** A literal passes only when it parses as a non-negative 32-bit integer.
      A literal text `-1` fails, but the index `-1` as written is a unary
      minus around the literal `1`, and that passes. */
  lemma LiteralExamples(parseInt32: string -> Option<int>)
    requires parseInt32("2") == Some(2) && parseInt32("1.5").None? && parseInt32("-1") == Some(-1)
    requires parseInt32("1") == Some(1)
    ensures CheckUnary(parseInt32, ExampleScopes(), Constant("2")) == Accept
    ensures CheckUnary(parseInt32, ExampleScopes(), Constant("1.5")) == Reject
    ensures CheckUnary(parseInt32, ExampleScopes(), Constant("-1")) == Reject
    ensures Check(parseInt32, ExampleScopes(), Lift(UnaryMinus(Lift(Constant("1"))))) == Accept
  {
    assert Check(parseInt32, ExampleScopes(), Lift(UnaryMinus(Lift(Constant("1")))))
        == CheckUnary(parseInt32, ExampleScopes(), UnaryMinus(Lift(Constant("1"))))
        == Check(parseInt32, ExampleScopes(), Lift(Constant("1")))
        == CheckUnary(parseInt32, ExampleScopes(), Constant("1"));
  }
}
