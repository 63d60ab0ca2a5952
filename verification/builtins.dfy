/** The library routines pre-declared in the global scope, as seed data. */
module BuiltIns {
  import opened Wrappers
  import opened Symbols

  /** The shape of a function entry: its type is the return type.  No name
      is passed for it, so the entry's name is left empty. */
  function FunctionEntry(result: SysYType, params: seq<Entry>): (e: Entry)
    ensures WellFormed(e) && e.isFunction && !e.isArray && !e.isConst
    ensures e.declaredType == result && ParamsOf(e) == params
  {
    Entry("", result, false, true, false, None, Some(params), None)
  }

  /** The names of the built-in routines, in the order the source lists
      them. */
  const BuiltInFunctionNames: seq<string> :=
    ["getint", "getch", "getfloat", "getarray", "getfarray", "putint", "putch",
     "putfloat", "putarray", "putfarray", "putf", "starttime", "stoptime"]

  /** The same names as a set. */
  const BuiltInNameSet: set<string> :=
    {"getint", "getch", "getfloat", "getarray", "getfarray", "putint", "putch",
     "putfloat", "putarray", "putfarray", "putf", "starttime", "stoptime"}

  /** The built-in routines whose return type is `int`. */
  const IntRoutines: set<string> := {"getint", "getch", "getarray"}

  /** An array parameter with unspecified dimensions. */
  function ArrayParam(t: SysYType): (e: Entry)
    ensures WellFormed(e) && e.isArray && !e.isFunction && DimensionsOf(e) == []
  {
    Entry("", t, false, false, true, Some([]), None, None)
  }

  /** A scalar parameter. */
  function ScalarParam(t: SysYType): (e: Entry)
    ensures WellFormed(e) && !e.isArray && !e.isFunction && !e.isConst
  {
    Entry("", t, false, false, false, None, None, None)
  }

  /** The built-in table, keyed by routine name: it declares exactly the
      listed routines, every entry is a well-formed function entry, and of
      them exactly `getint`, `getch` and `getarray` return `int`. */
  function BuiltInScope(): (s: Scope)
    ensures forall n :: n in s ==> WellFormed(s[n]) && s[n].isFunction
    ensures forall n :: n in s ==> (s[n].declaredType == Int <==> n in IntRoutines)
  {
    map[
      "getint" := FunctionEntry(Int, []),
      "getch" := FunctionEntry(Int, []),
      "getfloat" := FunctionEntry(Float, []),
      "getarray" := FunctionEntry(Int, [ArrayParam(Int)]),
      "getfarray" := FunctionEntry(Float, [ArrayParam(Float)]),
      "putint" := FunctionEntry(Void, [ArrayParam(Int)]),
      "putch" := FunctionEntry(Void, [ArrayParam(Int)]),
      "putfloat" := FunctionEntry(Void, [ArrayParam(Float)]),
      "putarray" := FunctionEntry(Void, [ScalarParam(Int), ArrayParam(Int)]),
      "putfarray" := FunctionEntry(Void, [ScalarParam(Int), ArrayParam(Float)]),
      "putf" := FunctionEntry(Void, []),
      "starttime" := FunctionEntry(Void, []),
      "stoptime" := FunctionEntry(Void, [])
    ]
  }

  /** The table declares exactly the thirteen routines, among them the
      three that return `int`. */
  lemma BuiltInNames()
    ensures BuiltInScope().Keys == BuiltInNameSet
    ensures IntRoutines <= BuiltInScope().Keys
  {
  }

  /** The list holds exactly the names of the set. */
  lemma ListedNames()
    ensures forall n :: n in BuiltInFunctionNames <==> n in BuiltInNameSet
  {
  }

  /** The list names each routine once. */
  lemma ListedOnce()
    ensures forall i, j :: 0 <= i < j < |BuiltInFunctionNames| ==> BuiltInFunctionNames[i] != BuiltInFunctionNames[j]
  {
  }

  /** The name list and the table agree: a routine is listed exactly when
      the table declares it. */
  lemma NameListMatchesTable()
    ensures forall n :: n in BuiltInFunctionNames <==> n in BuiltInScope()
  {
    BuiltInNames();
    ListedNames();
  }
}
