/** Flattening of a nested brace initializer of a constant array into a flat
    value list, padding rows with zeros. */
module ArrayInitial {
  import opened Wrappers
  import opened Numerics
  import opened Syntax

  /** The three exceptions the flattener can raise: a negative capacity for
      the result list, a negative count for the zero padding, and a null
      constant expression handed to the evaluator for a leaf element. */
  datatype FlattenError = NegativeCapacity | NegativePadding | NullExpression

  /** Every dimension is a positive 32-bit `int` (a zero dimension would divide by zero). */
  predicate ValidDims(dims: seq<int>) {
    forall i :: 0 <= i < |dims| ==> 0 < dims[i] <= Int32Max
  }

  /** The mathematical product of the dimensions; 1 for none. */
  function Product(dims: seq<int>): int {
    if |dims| == 0 then 1 else dims[0] * Product(dims[1..])
  }

  lemma {:induction false} ProductPositive(dims: seq<int>)
    requires ValidDims(dims)
    ensures Product(dims) >= 1
  {
    if |dims| > 0 {
      ProductPositive(dims[1..]);
      assert ValidDims(dims[1..]);
    }
  }

  /** The running product of the dimensions, starting from `acc`, where
      every step is an unchecked 32-bit multiplication. */
  function Aggregate(acc: int, dims: seq<int>): (r: int)
    ensures InInt32(acc) ==> InInt32(r)
    decreases |dims|
  {
    if |dims| == 0 then acc else Aggregate(Wrap32(acc * dims[0]), dims[1..])
  }

  lemma {:induction false} AggregateIsProduct(acc: int, dims: seq<int>)
    requires ValidDims(dims) && 0 < acc
    requires acc * Product(dims) <= Int32Max
    ensures Aggregate(acc, dims) == acc * Product(dims)
    decreases |dims|
  {
    if |dims| > 0 {
      var d, rest := dims[0], dims[1..];
      assert ValidDims(rest);
      ProductPositive(rest);
      var p := Product(rest);
      assert Product(dims) == d * p;
      Regroup(acc, d, p);
      Grows(acc * d, p);
      assert 0 < acc * d <= Int32Max;
      assert Wrap32(acc * d) == acc * d;
      AggregateIsProduct(acc * d, rest);
    }
  }

  lemma Regroup(a: int, b: int, c: int)
    ensures a * (b * c) == (a * b) * c
  {
  }

  lemma Grows(a: int, b: int)
    requires a > 0 && b >= 1
    ensures a <= a * b
  {
  }

  /** The initial `total`: the product of all dimensions whenever that product
      fits in an `int`, and its 32-bit wrap-around otherwise. */
  function InitialTotal(dims: seq<int>): (total: int)
    requires ValidDims(dims)
    ensures |dims| == 0 ==> total == 1
    ensures Product(dims) <= Int32Max ==> total == Product(dims)
    ensures InInt32(total)
  {
    if Product(dims) <= Int32Max then
      AggregateIsProduct(1, dims);
      Aggregate(1, dims)
    else
      Aggregate(1, dims)
  }

  /** Each recursive call divides `total` by the outermost dimension, which
      leaves exactly the product of the remaining dimensions. */
  lemma RowTotalIsProductOfRest(dims: seq<int>)
    requires ValidDims(dims) && |dims| > 0
    ensures Product(dims) / dims[0] == Product(dims[1..])
  {
    DivideExact(dims[0], Product(dims[1..]));
  }

  lemma DivideExact(d: int, p: int)
    requires d > 0
    ensures (d * p) / d == p
  {
    var q, r := (d * p) / d, (d * p) % d;
    assert d * p == d * q + r && 0 <= r < d;
    assert d * (p - q) == r;
    MultipleBounds(d, p - q);
  }

  lemma MultipleBounds(d: int, k: int)
    requires d > 0
    ensures k >= 1 ==> d * k >= d
    ensures k <= -1 ==> d * k <= -d
  {
  }

  // ---------------------------------------------------------------------
  // Rows

  function Zeros(n: nat): (z: seq<real>)
    ensures |z| == n
    ensures forall i :: 0 <= i < n ==> z[i] == 0.0
  {
    seq(n, _ => 0.0)
  }

  /** The pending row extended with zeros to exactly `row` values.  The
      number of zeros is `row` minus the pending length, so the source throws
      on a negative count when the row already holds more. */
  function PadRow(cur: seq<real>, row: int): (r: Result<seq<real>, FlattenError>)
    ensures r.Success? <==> |cur| <= row
    ensures r.Failure? ==> r.error == NegativePadding
    ensures r.Success? ==> |r.value| == row && r.value[..|cur|] == cur
    ensures r.Success? ==> forall i :: |cur| <= i < row ==> r.value[i] == 0.0
  {
    if row - |cur| < 0 then Failure(NegativePadding) else Success(cur + Zeros(row - |cur|))
  }

  /** The end of a group: a non-empty pending row is padded and appended. */
  function FlushRow(acc: seq<real>, cur: seq<real>, row: int): (r: Result<seq<real>, FlattenError>)
    ensures |cur| == 0 ==> r == Success(acc)
    ensures |cur| > 0 ==> (r.Success? <==> |cur| <= row)
    ensures r.Success? && |cur| > 0 ==> r.value == acc + cur + Zeros(row - |cur|)
    ensures r.Failure? ==> r.error == NegativePadding
  {
    if |cur| > 0 then
      match PadRow(cur, row)
      case Failure(e) => Failure(e)
      case Success(padded) =>
        assert padded == cur + Zeros(row - |cur|);
        Success(acc + padded)
    else Success(acc)
  }

  // ---------------------------------------------------------------------
  // The flattener

  /** `VisitArrayInitial`.  For a leaf element met while walking the group
      `v`, the source evaluates `v`'s OWN constant expression (the enclosing
      group's, not the element's) and appends the value half of the result,
      ignoring the success flag.  When `v` has no constant expression the
      evaluator dereferences null and throws (`NullExpression`); otherwise
      `leaf(e)` stands for that value half for the expression `e`. */
  function VisitArrayInitial(leaf: AddExpr -> real, init: InitValue, dims: seq<int>): (r: Result<seq<real>, FlattenError>)
    requires ValidDims(dims)
    ensures |dims| == 0 ==> r == Success([])
    ensures Product(dims) <= Int32Max ==> r == Flatten(leaf, init, dims, Product(dims))
    ensures Product(dims) > Int32Max && InitialTotal(dims) < 0 ==> r == Failure(NegativeCapacity)
  {
    Flatten(leaf, init, dims, InitialTotal(dims))
  }

  /** `InternalVisitArrayInitial`. */
  function Flatten(leaf: AddExpr -> real, v: InitValue, dims: seq<int>, total: int): Result<seq<real>, FlattenError>
    requires ValidDims(dims)
    decreases v, 1, 0
  {
    if |dims| == 0 then Success([])
    else if total < 0 then Failure(NegativeCapacity)
    else Walk(leaf, v, 0, dims, total, [], [])
  }

  /** The loop over `v.elements` from index `i`, with `acc` the result so far
      and `cur` the pending row. */
  function Walk(leaf: AddExpr -> real, v: InitValue, i: nat, dims: seq<int>, total: int,
                acc: seq<real>, cur: seq<real>): Result<seq<real>, FlattenError>
    requires ValidDims(dims) && |dims| > 0 && total >= 0 && i <= |v.elements|
    decreases v, 0, |v.elements| - i
  {
    var row := total / dims[0];
    if i == |v.elements| then FlushRow(acc, cur, row)
    else if IsLeaf(v.elements[i]) then
      match v.constExpr
      case None => Failure(NullExpression)
      case Some(e) => Walk(leaf, v, i + 1, dims, total, acc, cur + [leaf(e)])
    else
      match PadRow(cur, row)
      case Failure(e) => Failure(e)
      case Success(padded) =>
        assert ValidDims(dims[1..]);
        match Flatten(leaf, v.elements[i], dims[1..], row)
        case Failure(e) => Failure(e)
        case Success(sub) => Walk(leaf, v, i + 1, dims, total, acc + padded + sub, [])
  }

  // ---------------------------------------------------------------------
  // Shape of the output

  /** The output only ever grows: what has been emitted stays a prefix. */
  lemma {:induction false} WalkExtendsAcc(leaf: AddExpr -> real, v: InitValue, i: nat, dims: seq<int>, total: int,
                                          acc: seq<real>, cur: seq<real>)
    requires ValidDims(dims) && |dims| > 0 && total >= 0 && i <= |v.elements|
    ensures Walk(leaf, v, i, dims, total, acc, cur).Success? ==> acc <= Walk(leaf, v, i, dims, total, acc, cur).value
    decreases |v.elements| - i
  {
    if i < |v.elements| {
      if IsLeaf(v.elements[i]) {
        if v.constExpr.Some? {
          WalkExtendsAcc(leaf, v, i + 1, dims, total, acc, cur + [leaf(v.constExpr.value)]);
        }
      } else {
        var row := total / dims[0];
        var padded := PadRow(cur, row);
        assert ValidDims(dims[1..]);
        if padded.Success? && Flatten(leaf, v.elements[i], dims[1..], row).Success? {
          var next := acc + padded.value + Flatten(leaf, v.elements[i], dims[1..], row).value;
          WalkExtendsAcc(leaf, v, i + 1, dims, total, next, []);
          assert acc <= next;
        }
      }
    }
  }

  function Repeat(x: real, k: nat): (s: seq<real>)
    ensures |s| == k
    ensures forall j :: 0 <= j < k ==> s[j] == x
  {
    seq(k, _ => x)
  }

  lemma {:induction false} WalkOverLeaves(leaf: AddExpr -> real, v: InitValue, i: nat, dims: seq<int>, total: int,
                                          acc: seq<real>, cur: seq<real>)
    requires ValidDims(dims) && |dims| > 0 && total >= 0 && i <= |v.elements|
    requires forall j :: i <= j < |v.elements| ==> IsLeaf(v.elements[j])
    requires v.constExpr.Some?
    ensures Walk(leaf, v, i, dims, total, acc, cur)
         == FlushRow(acc, cur + Repeat(leaf(v.constExpr.value), |v.elements| - i), total / dims[0])
    decreases |v.elements| - i
  {
    if i < |v.elements| {
      WalkOverLeaves(leaf, v, i + 1, dims, total, acc, cur + [leaf(v.constExpr.value)]);
      assert cur + [leaf(v.constExpr.value)] + Repeat(leaf(v.constExpr.value), |v.elements| - (i + 1))
          == cur + Repeat(leaf(v.constExpr.value), |v.elements| - i);
    } else {
      assert cur + Repeat(leaf(v.constExpr.value), 0) == cur;
    }
  }

  /** A group of k leaves and nothing else throws at once when the group
      has no constant expression; otherwise it yields exactly one row of
      `total / dims[0]` values: k copies of the group's leaf value, then
      zeros; more leaves than the row holds throw. */
  lemma LeafOnlyGroup(leaf: AddExpr -> real, v: InitValue, dims: seq<int>, total: int)
    requires ValidDims(dims) && |dims| > 0 && total >= 0
    requires |v.elements| > 0 && forall j :: 0 <= j < |v.elements| ==> IsLeaf(v.elements[j])
    ensures var row, k := total / dims[0], |v.elements|;
      Flatten(leaf, v, dims, total)
        == match v.constExpr
           case None => Failure(NullExpression)
           case Some(e) =>
             if k <= row then Success(Repeat(leaf(e), k) + Zeros(row - k)) else Failure(NegativePadding)
  {
    if v.constExpr.Some? {
      WalkOverLeaves(leaf, v, 0, dims, total, [], []);
      assert [] + Repeat(leaf(v.constExpr.value), |v.elements|) == Repeat(leaf(v.constExpr.value), |v.elements|);
    }
  }

  /** An initializer with no elements yields nothing. */
  lemma EmptyInitializer(leaf: AddExpr -> real, v: InitValue, dims: seq<int>, total: int)
    requires ValidDims(dims) && total >= 0 && |v.elements| == 0
    ensures Flatten(leaf, v, dims, total) == Success([])
  {
  }

  /** A nested group first flushes the pending row padded to exactly
      `total / dims[0]` values (a full row of zeros when nothing is pending),
      then emits the group's own flattening for the remaining dimensions with
      that row size as its total, and carries on with an empty row. */
  lemma GroupFlushesRow(leaf: AddExpr -> real, v: InitValue, i: nat, dims: seq<int>, total: int,
                        acc: seq<real>, cur: seq<real>)
    requires ValidDims(dims) && |dims| > 0 && total >= 0 && i < |v.elements|
    requires !IsLeaf(v.elements[i])
    ensures ValidDims(dims[1..])
    ensures |cur| > total / dims[0] ==> Walk(leaf, v, i, dims, total, acc, cur) == Failure(NegativePadding)
    ensures Walk(leaf, v, i, dims, total, acc, cur).Success? ==>
      var row := total / dims[0];
      var sub := Flatten(leaf, v.elements[i], dims[1..], row);
      var flushed := acc + cur + Zeros(row - |cur|) + sub.value;
      && |cur| <= row && sub.Success?
      && Walk(leaf, v, i, dims, total, acc, cur) == Walk(leaf, v, i + 1, dims, total, flushed, [])
      && flushed <= Walk(leaf, v, i, dims, total, acc, cur).value
  {
    assert ValidDims(dims[1..]);
    var row := total / dims[0];
    if Walk(leaf, v, i, dims, total, acc, cur).Success? {
      var sub := Flatten(leaf, v.elements[i], dims[1..], row);
      assert PadRow(cur, row).value == cur + Zeros(row - |cur|);
      var flushed := acc + cur + Zeros(row - |cur|) + sub.value;
      assert acc + PadRow(cur, row).value + sub.value == flushed;
      WalkExtendsAcc(leaf, v, i + 1, dims, total, flushed, []);
    }
  }

  /** Even with nothing pending, a group that opens an initializer is preceded
      by a whole row of zeros. */
  lemma LeadingGroupEmitsZeroRow(leaf: AddExpr -> real, v: InitValue, dims: seq<int>, total: int)
    requires ValidDims(dims) && |dims| > 0 && total >= 0
    requires |v.elements| > 0 && !IsLeaf(v.elements[0])
    ensures Flatten(leaf, v, dims, total).Success? ==>
      Zeros(total / dims[0]) <= Flatten(leaf, v, dims, total).value
  {
    var row := total / dims[0];
    assert Flatten(leaf, v, dims, total) == Walk(leaf, v, 0, dims, total, [], []);
    if Walk(leaf, v, 0, dims, total, [], []).Success? {
      GroupFlushesRow(leaf, v, 0, dims, total, [], []);
      var sub := Flatten(leaf, v.elements[0], dims[1..], row);
      var flushed := [] + [] + Zeros(row - 0) + sub.value;
      assert flushed <= Walk(leaf, v, 0, dims, total, [], []).value;
      assert Zeros(row) <= flushed;
    }
  }

  // ---------------------------------------------------------------------
  // One dimension: an independent description

  /** The number of consecutive leaves immediately before index `i`. */
  function RunBefore(elems: seq<InitValue>, i: nat): nat
    requires i <= |elems|
  {
    if i == 0 || !IsLeaf(elems[i - 1]) then 0 else RunBefore(elems, i - 1) + 1
  }

  /** The number of nested groups from index `i` on. */
  function GroupsFrom(elems: seq<InitValue>, i: nat): nat
    requires i <= |elems|
    decreases |elems| - i
  {
    if i == |elems| then 0 else (if IsLeaf(elems[i]) then 0 else 1) + GroupsFrom(elems, i + 1)
  }

  /** No run of consecutive leaves is longer than `row`. */
  predicate RunsFit(elems: seq<InitValue>, row: int) {
    forall i :: 0 <= i <= |elems| ==> RunBefore(elems, i) <= row
  }

  /** Recursive form of `RunsFit` from index `i` on. */
  predicate RunsFitFrom(elems: seq<InitValue>, i: nat, row: int)
    requires i <= |elems|
    decreases |elems| - i
  {
    RunBefore(elems, i) <= row && (i < |elems| ==> RunsFitFrom(elems, i + 1, row))
  }

  lemma {:induction false} RunsFitFromAll(elems: seq<InitValue>, i: nat, row: int)
    requires i <= |elems|
    ensures RunsFitFrom(elems, i, row) <==> forall j :: i <= j <= |elems| ==> RunBefore(elems, j) <= row
    decreases |elems| - i
  {
    if i < |elems| {
      RunsFitFromAll(elems, i + 1, row);
      if forall j :: i <= j <= |elems| ==> RunBefore(elems, j) <= row {
        assert RunBefore(elems, i) <= row;
        assert forall j :: i + 1 <= j <= |elems| ==> RunBefore(elems, j) <= row;
      }
      if RunsFitFrom(elems, i, row) {
        forall j | i <= j <= |elems| ensures RunBefore(elems, j) <= row {
          if j > i {
            assert i + 1 <= j;
          }
        }
      }
    } else {
      if RunsFitFrom(elems, i, row) {
        forall j | i <= j <= |elems| ensures RunBefore(elems, j) <= row {
          assert j == i;
        }
      }
      if forall j :: i <= j <= |elems| ==> RunBefore(elems, j) <= row {
        assert RunBefore(elems, i) <= row;
      }
    }
  }

  /** Rows a one-dimensional walk emits from index `i` on, given the pending run. */
  function RowsFrom(elems: seq<InitValue>, i: nat): nat
    requires i <= |elems|
  {
    GroupsFrom(elems, i) + if RunBefore(elems, |elems|) > 0 then 1 else 0
  }

  lemma Distribute(row: int, n: int)
    ensures row * (n + 1) == row + row * n
  {
  }

  /** The one-dimensional walk from index `i`, with the pending run in `cur`:
      it fails (on padding) exactly when some later run is too long, and
      otherwise emits one row per remaining group and one for a trailing run. */
  lemma {:induction false} WalkOneDimension(leaf: AddExpr -> real, v: InitValue, i: nat, d: int, total: int, row: int,
                                            acc: seq<real>, cur: seq<real>)
    requires 0 < d <= Int32Max && total >= 0 && row == total / d && i <= |v.elements|
    requires |cur| == RunBefore(v.elements, i) && v.constExpr.Some?
    ensures ValidDims([d])
    ensures var r := Walk(leaf, v, i, [d], total, acc, cur);
      && (r.Success? <==> RunsFitFrom(v.elements, i, row))
      && (r.Failure? ==> r.error == NegativePadding)
      && (r.Success? ==> |r.value| == |acc| + row * RowsFrom(v.elements, i))
    decreases |v.elements| - i
  {
    assert ValidDims([d]);
    if i == |v.elements| {
      WalkAtEnd(leaf, v, i, d, total, row, acc, cur);
    } else if IsLeaf(v.elements[i]) {
      WalkOneDimension(leaf, v, i + 1, d, total, row, acc, cur + [leaf(v.constExpr.value)]);
      WalkAtLeaf(leaf, v, i, d, total, row, acc, cur);
    } else if |cur| <= row {
      var padded := PadRow(cur, row).value;
      WalkOneDimension(leaf, v, i + 1, d, total, row, acc + padded, []);
      WalkAtGroup(leaf, v, i, d, total, row, acc, cur);
    } else {
      WalkAtGroup(leaf, v, i, d, total, row, acc, cur);
    }
  }

  lemma WalkAtEnd(leaf: AddExpr -> real, v: InitValue, i: nat, d: int, total: int, row: int,
                  acc: seq<real>, cur: seq<real>)
    requires 0 < d <= Int32Max && total >= 0 && row == total / d && i == |v.elements|
    requires |cur| == RunBefore(v.elements, i)
    ensures ValidDims([d])
    ensures var r := Walk(leaf, v, i, [d], total, acc, cur);
      && (r.Success? <==> RunsFitFrom(v.elements, i, row))
      && (r.Failure? ==> r.error == NegativePadding)
      && (r.Success? ==> |r.value| == |acc| + row * RowsFrom(v.elements, i))
  {
    assert ValidDims([d]);
    assert Walk(leaf, v, i, [d], total, acc, cur) == FlushRow(acc, cur, row);
    assert GroupsFrom(v.elements, i) == 0;
  }

  lemma WalkAtLeaf(leaf: AddExpr -> real, v: InitValue, i: nat, d: int, total: int, row: int,
                   acc: seq<real>, cur: seq<real>)
    requires 0 < d <= Int32Max && total >= 0 && row == total / d && i < |v.elements| && IsLeaf(v.elements[i])
    requires |cur| == RunBefore(v.elements, i) && v.constExpr.Some?
    requires ValidDims([d])
    requires var r := Walk(leaf, v, i + 1, [d], total, acc, cur + [leaf(v.constExpr.value)]);
      && (r.Success? <==> RunsFitFrom(v.elements, i + 1, row))
      && (r.Failure? ==> r.error == NegativePadding)
      && (r.Success? ==> |r.value| == |acc| + row * RowsFrom(v.elements, i + 1))
    ensures var r := Walk(leaf, v, i, [d], total, acc, cur);
      && (r.Success? <==> RunsFitFrom(v.elements, i, row))
      && (r.Failure? ==> r.error == NegativePadding)
      && (r.Success? ==> |r.value| == |acc| + row * RowsFrom(v.elements, i))
  {
    assert Walk(leaf, v, i, [d], total, acc, cur) == Walk(leaf, v, i + 1, [d], total, acc, cur + [leaf(v.constExpr.value)]);
    assert RunBefore(v.elements, i + 1) == RunBefore(v.elements, i) + 1;
    assert GroupsFrom(v.elements, i) == GroupsFrom(v.elements, i + 1);
  }

  lemma WalkAtGroup(leaf: AddExpr -> real, v: InitValue, i: nat, d: int, total: int, row: int,
                    acc: seq<real>, cur: seq<real>)
    requires 0 < d <= Int32Max && total >= 0 && row == total / d && i < |v.elements| && !IsLeaf(v.elements[i])
    requires |cur| == RunBefore(v.elements, i)
    requires ValidDims([d])
    requires |cur| <= row ==> var r := Walk(leaf, v, i + 1, [d], total, acc + PadRow(cur, row).value, []);
      && (r.Success? <==> RunsFitFrom(v.elements, i + 1, row))
      && (r.Failure? ==> r.error == NegativePadding)
      && (r.Success? ==> |r.value| == |acc + PadRow(cur, row).value| + row * RowsFrom(v.elements, i + 1))
    ensures var r := Walk(leaf, v, i, [d], total, acc, cur);
      && (r.Success? <==> RunsFitFrom(v.elements, i, row))
      && (r.Failure? ==> r.error == NegativePadding)
      && (r.Success? ==> |r.value| == |acc| + row * RowsFrom(v.elements, i))
  {
    assert RunBefore(v.elements, i + 1) == 0;
    assert GroupsFrom(v.elements, i) == 1 + GroupsFrom(v.elements, i + 1);
    assert [d][1..] == [];
    assert Flatten(leaf, v.elements[i], [], row) == Success([]);
    if |cur| <= row {
      var padded := PadRow(cur, row).value;
      assert acc + padded + [] == acc + padded;
      assert Walk(leaf, v, i, [d], total, acc, cur) == Walk(leaf, v, i + 1, [d], total, acc + padded, []);
      Distribute(row, RowsFrom(v.elements, i + 1));
    } else {
      assert Walk(leaf, v, i, [d], total, acc, cur) == Failure(NegativePadding);
    }
  }

  /** No leaf element from index `i` on. */
  predicate NoLeafFrom(elems: seq<InitValue>, i: nat) {
    forall j :: i <= j < |elems| ==> !IsLeaf(elems[j])
  }

  /** The one-dimensional walk of a group without a constant expression,
      from index `i` with nothing pending: it throws exactly when a leaf
      follows, and otherwise emits one row of zeros per remaining group. */
  lemma {:induction false} WalkOneDimensionNull(leaf: AddExpr -> real, v: InitValue, i: nat, d: int, total: int, row: int,
                                                acc: seq<real>)
    requires 0 < d <= Int32Max && total >= 0 && row == total / d && i <= |v.elements| && v.constExpr.None?
    ensures ValidDims([d])
    ensures var r := Walk(leaf, v, i, [d], total, acc, []);
      && (r.Success? <==> NoLeafFrom(v.elements, i))
      && (r.Failure? ==> r.error == NullExpression)
      && (r.Success? ==> |r.value| == |acc| + row * GroupsFrom(v.elements, i))
      && (r.Success? ==> forall k :: |acc| <= k < |r.value| ==> r.value[k] == 0.0)
    decreases |v.elements| - i
  {
    assert ValidDims([d]);
    var r := Walk(leaf, v, i, [d], total, acc, []);
    if i == |v.elements| {
      assert r == FlushRow(acc, [], row);
    } else if IsLeaf(v.elements[i]) {
      assert r == Failure(NullExpression);
    } else {
      assert [d][1..] == [];
      assert Flatten(leaf, v.elements[i], [], row) == Success([]);
      var padded := PadRow([], row).value;
      assert |padded| == row;
      assert acc + padded + [] == acc + padded;
      assert r == Walk(leaf, v, i + 1, [d], total, acc + padded, []);
      WalkOneDimensionNull(leaf, v, i + 1, d, total, row, acc + padded);
      WalkExtendsAcc(leaf, v, i + 1, [d], total, acc + padded, []);
      if r.Success? {
        forall k | |acc| <= k < |acc| + row
          ensures r.value[k] == 0.0
        {
          assert r.value[k] == (acc + padded)[k] == padded[k - |acc|];
        }
      }
      assert GroupsFrom(v.elements, i) == 1 + GroupsFrom(v.elements, i + 1);
      Distribute(row, GroupsFrom(v.elements, i + 1));
      assert NoLeafFrom(v.elements, i) <==> NoLeafFrom(v.elements, i + 1);
    }
  }

  /** With one dimension `d` and a group that has a constant expression, the
      flattening succeeds exactly when no run of consecutive leaves exceeds
      the row size `total / d`, and then holds one row per nested group plus
      one for a trailing run of leaves.  Without a constant expression it
      succeeds exactly when there is no leaf at all, with one row of zeros
      per nested group. */
  lemma OneDimensionalShape(leaf: AddExpr -> real, v: InitValue, d: int, total: int)
    requires 0 < d <= Int32Max && total >= 0
    ensures var r, row := Flatten(leaf, v, [d], total), total / d;
      v.constExpr.Some? ==>
      && (r.Success? <==> RunsFit(v.elements, row))
      && (r.Failure? ==> r.error == NegativePadding)
      && (r.Success? ==>
            |r.value| == row * (GroupsFrom(v.elements, 0) + if RunBefore(v.elements, |v.elements|) > 0 then 1 else 0))
    ensures var r, row := Flatten(leaf, v, [d], total), total / d;
      v.constExpr.None? ==>
      && (r.Success? <==> NoLeafFrom(v.elements, 0))
      && (r.Failure? ==> r.error == NullExpression)
      && (r.Success? ==> |r.value| == row * GroupsFrom(v.elements, 0))
      && (r.Success? ==> forall k :: 0 <= k < |r.value| ==> r.value[k] == 0.0)
  {
    if v.constExpr.None? {
      WalkOneDimensionNull(leaf, v, 0, d, total, total / d, []);
      assert Flatten(leaf, v, [d], total) == Walk(leaf, v, 0, [d], total, [], []);
      return;
    }
    WalkOneDimension(leaf, v, 0, d, total, total / d, [], []);
    RunsFitFromAll(v.elements, 0, total / d);
    var row := total / d;
    if RunsFitFrom(v.elements, 0, row) {
      forall j | 0 <= j <= |v.elements| ensures RunBefore(v.elements, j) <= row {
      }
    }
    if RunsFit(v.elements, row) {
      assert forall j :: 0 <= j <= |v.elements| ==> RunBefore(v.elements, j) <= row;
    }
    assert Flatten(leaf, v, [d], total) == Walk(leaf, v, 0, [d], total, [], []);
  }

  // ---------------------------------------------------------------------
  // Where the values come from

  /** `m` is `v` or a group or leaf nested anywhere inside it. */
  ghost predicate InTree(m: InitValue, v: InitValue)
    decreases v
  {
    m == v || exists j :: 0 <= j < |v.elements| && InTree(m, v.elements[j])
  }

  /** `x` is what a leaf element of the group `m` receives: `m` holds a
      leaf element, and `x` is the value of `m`'s own constant expression. */
  predicate LeafValueOf(leaf: AddExpr -> real, m: InitValue, x: real) {
    && (exists j :: 0 <= j < |m.elements| && IsLeaf(m.elements[j]))
    && m.constExpr.Some? && x == leaf(m.constExpr.value)
  }

  /** Every value is padding or the value a group of `v`'s tree hands to a
      leaf element it holds. */
  ghost predicate FromTree(leaf: AddExpr -> real, v: InitValue, xs: seq<real>) {
    forall k :: 0 <= k < |xs| ==> xs[k] == 0.0 || exists m :: InTree(m, v) && LeafValueOf(leaf, m, xs[k])
  }

  lemma FromTreeAppend(leaf: AddExpr -> real, v: InitValue, a: seq<real>, b: seq<real>)
    requires FromTree(leaf, v, a) && FromTree(leaf, v, b)
    ensures FromTree(leaf, v, a + b)
  {
    forall k | 0 <= k < |a + b|
      ensures (a + b)[k] == 0.0 || exists m :: InTree(m, v) && LeafValueOf(leaf, m, (a + b)[k])
    {
      if k >= |a| {
        assert (a + b)[k] == b[k - |a|];
      } else {
        assert (a + b)[k] == a[k];
      }
    }
  }

  lemma FromChild(leaf: AddExpr -> real, v: InitValue, j: nat, xs: seq<real>)
    requires j < |v.elements| && FromTree(leaf, v.elements[j], xs)
    ensures FromTree(leaf, v, xs)
  {
    forall k | 0 <= k < |xs| && xs[k] != 0.0
      ensures exists m :: InTree(m, v) && LeafValueOf(leaf, m, xs[k])
    {
      var m :| InTree(m, v.elements[j]) && LeafValueOf(leaf, m, xs[k]);
      assert InTree(m, v);
    }
  }

  /** The flattening holds nothing but zero padding and values of the
      constant expressions of groups, within the initializer's own tree, that
      hold a leaf element: a leaf's value comes from its enclosing group. */
  lemma {:induction false} FlattenValuesFromTree(leaf: AddExpr -> real, v: InitValue, dims: seq<int>, total: int)
    requires ValidDims(dims)
    ensures Flatten(leaf, v, dims, total).Success? ==> FromTree(leaf, v, Flatten(leaf, v, dims, total).value)
    decreases v, 1, 0
  {
    if |dims| > 0 && total >= 0 {
      WalkValuesFromTree(leaf, v, 0, dims, total, [], []);
    }
  }

  lemma {:induction false} WalkValuesFromTree(leaf: AddExpr -> real, v: InitValue, i: nat, dims: seq<int>, total: int,
                                              acc: seq<real>, cur: seq<real>)
    requires ValidDims(dims) && |dims| > 0 && total >= 0 && i <= |v.elements|
    requires FromTree(leaf, v, acc) && FromTree(leaf, v, cur)
    ensures Walk(leaf, v, i, dims, total, acc, cur).Success? ==>
      FromTree(leaf, v, Walk(leaf, v, i, dims, total, acc, cur).value)
    decreases v, 0, |v.elements| - i
  {
    var row := total / dims[0];
    if i == |v.elements| {
      if |cur| > 0 && |cur| <= row {
        assert FromTree(leaf, v, Zeros(row - |cur|));
        FromTreeAppend(leaf, v, acc, cur);
        FromTreeAppend(leaf, v, acc + cur, Zeros(row - |cur|));
      }
    } else if IsLeaf(v.elements[i]) {
      if v.constExpr.None? {
        return;
      }
      assert IsLeaf(v.elements[i]);
      assert InTree(v, v) && LeafValueOf(leaf, v, leaf(v.constExpr.value));
      assert FromTree(leaf, v, [leaf(v.constExpr.value)]);
      FromTreeAppend(leaf, v, cur, [leaf(v.constExpr.value)]);
      WalkValuesFromTree(leaf, v, i + 1, dims, total, acc, cur + [leaf(v.constExpr.value)]);
    } else if |cur| <= row {
      assert ValidDims(dims[1..]);
      var sub := Flatten(leaf, v.elements[i], dims[1..], row);
      if sub.Success? {
        FlattenValuesFromTree(leaf, v.elements[i], dims[1..], row);
        FromChild(leaf, v, i, sub.value);
        var padded := PadRow(cur, row).value;
        assert padded == cur + Zeros(row - |cur|);
        assert FromTree(leaf, v, Zeros(row - |cur|));
        FromTreeAppend(leaf, v, cur, Zeros(row - |cur|));
        FromTreeAppend(leaf, v, acc, padded);
        FromTreeAppend(leaf, v, acc + padded, sub.value);
        assert FromTree(leaf, v, []);
        WalkValuesFromTree(leaf, v, i + 1, dims, total, acc + padded + sub.value, []);
      }
    }
  }

  /** The shape the parser builds: a node with a constant expression has
      no elements, and so on all the way down. */
  predicate ParserShaped(v: InitValue)
    decreases v
  {
    && (v.constExpr.Some? ==> IsLeaf(v))
    && forall j :: 0 <= j < |v.elements| ==> ParserShaped(v.elements[j])
  }

  lemma {:induction false} ParserShapedSubtree(m: InitValue, v: InitValue)
    requires ParserShaped(v) && InTree(m, v)
    ensures ParserShaped(m)
    decreases v
  {
    if m != v {
      var j :| 0 <= j < |v.elements| && InTree(m, v.elements[j]);
      ParserShapedSubtree(m, v.elements[j]);
    }
  }

  /** On an initializer of the parser's shape no group carries a constant
      expression, so a leaf never receives a value: whatever flattens
      successfully is all zeros. */
  lemma ParsedInitializerFlattensToZeros(leaf: AddExpr -> real, v: InitValue, dims: seq<int>, total: int)
    requires ValidDims(dims) && ParserShaped(v)
    ensures var r := Flatten(leaf, v, dims, total);
      r.Success? ==> forall k :: 0 <= k < |r.value| ==> r.value[k] == 0.0
  {
    var r := Flatten(leaf, v, dims, total);
    if r.Success? {
      FlattenValuesFromTree(leaf, v, dims, total);
      forall k | 0 <= k < |r.value|
        ensures r.value[k] == 0.0
      {
        if r.value[k] != 0.0 {
          var m :| InTree(m, v) && LeafValueOf(leaf, m, r.value[k]);
          ParserShapedSubtree(m, v);
          assert false;
        }
      }
    }
  }

  // ---------------------------------------------------------------------
  // A leaf under a brace group

  /** A group without a constant expression of its own that holds a leaf
      element never flattens: the evaluator is handed the group's missing
      expression, unless an earlier element has already thrown. */
  lemma LeafUnderBracesFails(leaf: AddExpr -> real, v: InitValue, dims: seq<int>, total: int)
    requires ValidDims(dims) && |dims| > 0 && total >= 0 && v.constExpr.None?
    requires exists j :: 0 <= j < |v.elements| && IsLeaf(v.elements[j])
    ensures Flatten(leaf, v, dims, total).Failure?
  {
    var j :| 0 <= j < |v.elements| && IsLeaf(v.elements[j]);
    WalkReachesLeaf(leaf, v, 0, j, dims, total, []);
  }

  lemma {:induction false} WalkReachesLeaf(leaf: AddExpr -> real, v: InitValue, i: nat, j: nat, dims: seq<int>, total: int,
                                           acc: seq<real>)
    requires ValidDims(dims) && |dims| > 0 && total >= 0 && v.constExpr.None?
    requires i <= j < |v.elements| && IsLeaf(v.elements[j])
    ensures Walk(leaf, v, i, dims, total, acc, []).Failure?
    decreases j - i
  {
    if !IsLeaf(v.elements[i]) {
      var row := total / dims[0];
      assert ValidDims(dims[1..]);
      var padded := PadRow([], row).value;
      var sub := Flatten(leaf, v.elements[i], dims[1..], row);
      if sub.Success? {
        WalkReachesLeaf(leaf, v, i + 1, j, dims, total, acc + padded + sub.value);
      }
    }
  }

  // ---------------------------------------------------------------------
  // Worked examples

  /** A leaf element holding the literal `t`. */
  function Item(t: string): InitValue {
    InitValue(Some(Lift(Constant(t))), [])
  }

  /** A brace group, which has no constant expression of its own. */
  function Braces(elems: seq<InitValue>): InitValue {
    InitValue(None, elems)
  }

  /** `const int a[2][3] = {1, 2, {3}};` and `const int a[3] = {1};` both
      throw at their first leaf, whose value is sought in the brace group's
      missing constant expression. */
  lemma LeafExamplesThrow(leaf: AddExpr -> real)
    ensures ValidDims([2, 3]) && ValidDims([3])
    ensures VisitArrayInitial(leaf, Braces([Item("1"), Item("2"), Braces([Item("3")])]), [2, 3])
         == Failure(NullExpression)
    ensures VisitArrayInitial(leaf, Braces([Item("1")]), [3]) == Failure(NullExpression)
  {
    assert ValidDims([2, 3]) && ValidDims([3]);
    assert Product([3]) == 3 by { assert [3][1..] == []; }
    assert Product([2, 3]) == 6 by { assert [2, 3][1..] == [3]; }
  }

  /** `const int a[2] = {{1}, {2}};` nests one level deeper than its
      dimensions: each inner group is preceded by a padded row of one zero
      and is itself never looked at, so the result is two zeros. */
  lemma OverNestedExample(leaf: AddExpr -> real)
    ensures ValidDims([2])
    ensures VisitArrayInitial(leaf, Braces([Braces([Item("1")]), Braces([Item("2")])]), [2]) == Success([0.0, 0.0])
  {
    var v := Braces([Braces([Item("1")]), Braces([Item("2")])]);
    assert ValidDims([2]);
    assert Product([2]) == 2 by { assert [2][1..] == []; }
    assert [2][1..] == [] && 2 / 2 == 1;
    assert PadRow([], 1) == Success([0.0]) by { assert Zeros(1) == [0.0]; }
    assert !IsLeaf(v.elements[0]) && !IsLeaf(v.elements[1]);
    assert Flatten(leaf, v.elements[0], [], 1) == Success([]);
    assert Flatten(leaf, v.elements[1], [], 1) == Success([]);
    assert [0.0] + [0.0] + [] == [0.0, 0.0];
    assert Walk(leaf, v, 2, [2], 2, [0.0, 0.0], []) == Success([0.0, 0.0]);
    assert Walk(leaf, v, 1, [2], 2, [0.0], []) == Walk(leaf, v, 2, [2], 2, [0.0] + [0.0] + [], []);
    assert Walk(leaf, v, 0, [2], 2, [], []) == Walk(leaf, v, 1, [2], 2, [] + [0.0] + [], []);
    assert [] + [0.0] + [] == [0.0];
    assert Flatten(leaf, v, [2], 2) == Walk(leaf, v, 0, [2], 2, [], []);
    assert InitialTotal([2]) == 2;
  }

  /** Should a group carry a constant expression of its own, `{1, 2}` for
      `a[3]` still throws: `total / 3` is a row of one value, so the two
      pending leaves need a negative amount of padding. */
  lemma TooManyLeavesExample(leaf: AddExpr -> real)
    ensures ValidDims([3])
    ensures VisitArrayInitial(leaf, InitValue(Some(Lift(Constant("7"))), [Item("1"), Item("2")]), [3])
         == Failure(NegativePadding)
  {
    var v := InitValue(Some(Lift(Constant("7"))), [Item("1"), Item("2")]);
    assert ValidDims([3]);
    assert Product([3]) == 3 by { assert [3][1..] == []; }
    OneDimensionalShape(leaf, v, 3, 3);
    assert RunBefore(v.elements, 2) == 2;
  }

  /** `65536 * 32768` wraps to `int.MinValue`, and a list of negative
      capacity cannot be created. */
  lemma OverflowExample(leaf: AddExpr -> real, init: InitValue)
    ensures ValidDims([65536, 32768]) && VisitArrayInitial(leaf, init, [65536, 32768]) == Failure(NegativeCapacity)
  {
    assert ValidDims([65536, 32768]);
    assert [65536, 32768][1..] == [32768] && [32768][1..] == [];
    assert Product([65536, 32768]) == 0x8000_0000;
    assert Aggregate(1, [65536, 32768]) == Aggregate(65536, [32768]) == Aggregate(Wrap32(0x8000_0000), []);
    assert Wrap32(0x8000_0000) == Int32Min;
  }

  /** Not every overflow throws: `[65536, 65536]` wraps the total to zero,
      which is a valid capacity, and an empty initializer then yields the
      empty list. */
  lemma ZeroWrapExample(leaf: AddExpr -> real)
    ensures ValidDims([65536, 65536]) && InitialTotal([65536, 65536]) == 0
    ensures VisitArrayInitial(leaf, Braces([]), [65536, 65536]) == Success([])
  {
    assert ValidDims([65536, 65536]);
    assert [65536, 65536][1..] == [65536] && [65536][1..] == [];
    assert Aggregate(1, [65536, 65536]) == Aggregate(65536, [65536]) == Aggregate(Wrap32(0x1_0000_0000), []);
    assert Wrap32(0x1_0000_0000) == 0;
    assert Flatten(leaf, Braces([]), [65536, 65536], 0) == Walk(leaf, Braces([]), 0, [65536, 65536], 0, [], []);
  }
}
