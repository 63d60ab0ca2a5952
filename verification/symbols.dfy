/** The symbol-table value and the enumerations it is built from. */
module Symbols {
  import opened Wrappers

  /** The declared type of a symbol: exactly one of the three. */
  datatype SysYType = Int | Float | Void

  /** The ten semantic error kinds, numbered from 1 in declaration order. */
  datatype ErrorType =
    | VarUnknown
    | VarDuplicated
    | FuncUnknown
    | FuncDuplicated
    | FuncParamsNotMatch
    | FuncReturnTypeNotMatch
    | ArrayIndexNotInt
    | BreakNotInLoop
    | ContinueNotInLoop
    | VisitVariableError

  /** The ten kinds in declaration order. */
  const DeclarationOrder: seq<ErrorType> := [
    VarUnknown, VarDuplicated, FuncUnknown, FuncDuplicated, FuncParamsNotMatch,
    FuncReturnTypeNotMatch, ArrayIndexNotInt, BreakNotInLoop, ContinueNotInLoop, VisitVariableError]

  /** The enum's underlying value: the first kind is 1 and each later kind
      is one more than the kind declared before it, so a kind's value is its
      1-based position in declaration order. */
  function Code(e: ErrorType): (n: int)
    ensures 1 <= n <= 10
    ensures DeclarationOrder[n - 1] == e
  {
    match e
    case VarUnknown => 1
    case VarDuplicated => 2
    case FuncUnknown => 3
    case FuncDuplicated => 4
    case FuncParamsNotMatch => 5
    case FuncReturnTypeNotMatch => 6
    case ArrayIndexNotInt => 7
    case BreakNotInLoop => 8
    case ContinueNotInLoop => 9
    case VisitVariableError => 10
  }

  /** The kind with underlying value `n`, if any. */
  function FromCode(n: int): (r: Option<ErrorType>)
    ensures r.Some? <==> 1 <= n <= 10
    ensures r.Some? ==> Code(r.value) == n
  {
    if n == 1 then Some(VarUnknown)
    else if n == 2 then Some(VarDuplicated)
    else if n == 3 then Some(FuncUnknown)
    else if n == 4 then Some(FuncDuplicated)
    else if n == 5 then Some(FuncParamsNotMatch)
    else if n == 6 then Some(FuncReturnTypeNotMatch)
    else if n == 7 then Some(ArrayIndexNotInt)
    else if n == 8 then Some(BreakNotInLoop)
    else if n == 9 then Some(ContinueNotInLoop)
    else if n == 10 then Some(VisitVariableError)
    else None
  }

  /** Distinct kinds have distinct values, and decoding a kind's value gives it back. */
  lemma CodeIsBijective(a: ErrorType, b: ErrorType)
    ensures Code(a) == Code(b) <==> a == b
    ensures FromCode(Code(a)) == Some(a)
  {
  }

  /** A symbol-table entry.  The three optional payloads are nullable in the
      source; `WellFormed` states when each must be present. */
  datatype Entry = Entry(
    name: string,
    declaredType: SysYType,
    isConst: bool,
    isFunction: bool,
    isArray: bool,
    arrayDimensions: Option<seq<int>>,
    functionParams: Option<seq<Entry>>,
    constantValue: Option<real>)

  /** The nullability contract of one entry: a const entry has a constant value, a function has a parameter list and
      an array has a dimension list. */
  predicate WellFormed(e: Entry)
  {
    && (e.isConst ==> e.constantValue.Some?)
    && (e.isFunction ==> e.functionParams.Some?)
    && (e.isArray ==> e.arrayDimensions.Some?)
  }

  /** The constant value of a const entry; present by the nullability contract. */
  function ConstantOf(e: Entry): (v: real)
    requires WellFormed(e) && e.isConst
    ensures e.constantValue == Some(v)
  {
    e.constantValue.value
  }

  /** The parameter list of a function entry; present by the nullability contract. */
  function ParamsOf(e: Entry): (ps: seq<Entry>)
    requires WellFormed(e) && e.isFunction
    ensures e.functionParams == Some(ps)
  {
    e.functionParams.value
  }

  /** The dimension list of an array entry; present by the nullability contract. */
  function DimensionsOf(e: Entry): (ds: seq<int>)
    requires WellFormed(e) && e.isArray
    ensures e.arrayDimensions == Some(ds)
  {
    e.arrayDimensions.value
  }

  /** One scope: names to entries. */
  type Scope = map<string, Entry>

  /** The scope stack: index 0 is the global scope, the innermost scope is last. */
  type ScopeStack = seq<Scope>
}
