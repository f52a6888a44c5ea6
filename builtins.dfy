/** The parts of the builtins of scheme/functions.cpp that do not evaluate:
    the type predicates, int64 arithmetic, the comparison relations and the
    pair and list operations.  The loops that evaluate their arguments once
    more are in eval.dfy. */
module Builtins {
  import opened Base
  import opened Objects
  import opened Heaps
  import opened Lists

  /** `std::make_shared<True>()` or `std::make_shared<False>()`. */
  function Bool(b: bool): (v: Value)
    ensures v.True? || v.False?
    ensures IsFalse(v) <==> !b
  {
    if b then True else False
  }

  // ---------------------------------------------------------------------
  // Predicates (scheme/functions.cpp:4-120)

  predicate IsPredicate(op: Builtin) {
    op.NullP? || op.PairP? || op.NumberP? || op.BooleanP? || op.SymbolP? || op.Not?
  }

  /** The answer of a one-argument predicate.  `boolean?` and `not` test the
      symbol's name, so a plain symbol read as `#f` counts as false to `not`. */
  predicate Answers(op: Builtin, v: Value)
    requires IsPredicate(op)
  {
    match op
    case NullP => v == Nil
    case PairP => v.Pair?
    case NumberP => v.Number?
    case BooleanP => SymbolName(v) == Some("#t") || SymbolName(v) == Some("#f")
    case SymbolP => SymbolName(v).Some?
    case Not => SymbolName(v) == Some("#f")
  }

  /** `IsNullPred`, `IsPairPred`, `IsNumberPred`, `IsBooleanPred`,
      `IsSymbolPred` and `LogicalNegation`: exactly one argument, else
      RuntimeError. */
  function Predicate(op: Builtin, args: seq<Value>): (r: Result<Value>)
    requires IsPredicate(op)
    ensures |args| != 1 ==> r == Err(RuntimeError)
    ensures |args| == 1 ==> r.Ok? && (r.value == True <==> Answers(op, args[0])) && (r.value.True? || r.value.False?)
  {
    if |args| != 1 then Err(RuntimeError) else Ok(Bool(Answers(op, args[0])))
  }

  /** `IsListPred`, allowed `bound` more cells: the empty value is a list; a
      non-pair is not; a pair is one when its first element is a Number and
      its second is a list. */
  function IsListWithin(h: Heap, v: Value, bound: nat): (r: Result<bool>)
    requires Wf(h) && ValueOk(v, h)
    ensures r.Err? ==> r.error == OutOfFuel
    decreases bound
  {
    match v
    case Nil => Ok(true)
    case Pair(c) =>
      if !h.cells[c].first.Number? then Ok(false)
      else if bound == 0 then Err(OutOfFuel)
      else IsListWithin(h, h.cells[c].second, bound - 1)
    case _ => Ok(false)
  }

  /** `IsListPred::Apply` on its one argument. */
  function IsList(h: Heap, v: Value): (r: Result<bool>)
    requires Wf(h) && ValueOk(v, h)
    ensures r.Err? ==> r.error == OutOfFuel
  {
    IsListWithin(h, v, |h.cells|)
  }

  // ---------------------------------------------------------------------
  // int64 arithmetic (scheme/functions.cpp:123-209, 374-393)

  /** A result the source computes in `int64_t`: one outside the range is
      signed overflow, undefined behaviour in C++. */
  function Checked(x: int): (r: Result<int>)
    ensures r.Ok? <==> InInt64(x)
    ensures r.Ok? ==> r.value == x
    ensures r.Err? ==> r.error == Undefined
  {
    if InInt64(x) then Ok(x) else Err(Undefined)
  }

  function Magnitude(x: int): nat {
    if x < 0 then -x else x
  }

  /** C++ integer division, which truncates toward zero: the remainder has
      the sign of the dividend and is smaller than the divisor in magnitude. */
  function TruncDiv(a: int, b: int): (q: int)
    requires b != 0
    ensures a >= 0 ==> 0 <= a - q * b < Magnitude(b)
    ensures a < 0 ==> 0 <= q * b - a < Magnitude(b)
  {
    var m := Magnitude(a) / Magnitude(b);
    var q := if (a < 0) == (b < 0) then m else -m;
    SignedProduct(a, b, m, q);
    q
  }

  lemma SignedProduct(a: int, b: int, m: int, q: int)
    requires b != 0 && m == Magnitude(a) / Magnitude(b)
    requires q == if (a < 0) == (b < 0) then m else -m
    ensures a >= 0 ==> 0 <= a - q * b < Magnitude(b)
    ensures a < 0 ==> 0 <= q * b - a < Magnitude(b)
  {
    var r := Magnitude(a) - m * Magnitude(b);
    assert 0 <= r < Magnitude(b);
    assert q * b == m * Magnitude(b) || q * b == -(m * Magnitude(b)) by {
      if b < 0 {
        assert Magnitude(b) == -b;
        if q == m { assert q * b == -(m * Magnitude(b)); } else { assert q * b == m * Magnitude(b); }
      } else {
        assert Magnitude(b) == b;
      }
    }
    if a >= 0 {
      assert (a < 0) == (b < 0) <==> b > 0;
      assert q * b == m * Magnitude(b) by {
        if b < 0 { assert q == -m; assert (-m) * b == m * (-b); }
      }
    } else {
      assert q * b == -(m * Magnitude(b)) by {
        if b < 0 { assert q == m; assert m * b == -(m * (-b)); } else { assert q == -m; }
      }
    }
  }

  predicate IsArith(op: Builtin) {
    op.Add? || op.Sub? || op.Mul? || op.Div?
  }

  /** One step of the accumulator loops of `AddInt`, `SubtractInt`,
      `MultiplyInt` and `DivideInt`: `first` marks the first argument, which
      `-` adds to 0 and `/` multiplies into 1. */
  function Combine(op: Builtin, first: bool, acc: int, n: int): (r: Result<int>)
    requires IsArith(op)
    ensures r.Err? ==> r.error == Undefined
    ensures r.Ok? ==> InInt64(r.value)
  {
    match op
    case Add => Checked(acc + n)
    case Mul => Checked(acc * n)
    case Sub => if first then Checked(acc + n) else Checked(acc - n)
    case Div =>
      if first then Checked(acc * n)
      else if n == 0 then Err(Undefined)
      else Checked(TruncDiv(acc, n))
  }

  predicate IsComparison(op: Builtin) {
    op.NumEq? || op.Gt? || op.Lt? || op.Ge? || op.Le?
  }

  /** The relation an adjacent pair of arguments must satisfy. */
  predicate Holds(op: Builtin, a: int, b: int)
    requires IsComparison(op)
  {
    match op
    case NumEq => a == b
    case Gt => a > b
    case Lt => a < b
    case Ge => a >= b
    case Le => a <= b
  }

  /** `AbsInt` on the evaluated number: `value *= -1` overflows for the
      least int64. */
  function AbsValue(n: int): (r: Result<int>)
    ensures r.Ok? ==> r.value >= 0 && (r.value == n || r.value == -n)
    ensures InInt64(n) && n != INT64_MIN ==> r.Ok?
    ensures n == INT64_MIN ==> r == Err(Undefined)
  {
    if n < 0 then Checked(n * -1) else Ok(n)
  }

  // ---------------------------------------------------------------------
  // Pairs and lists (scheme/functions.cpp:396-545)

  predicate IsListOp(op: Builtin) {
    op.Cons? || op.Car? || op.Cdr? || op.SetCar? || op.SetCdr? || op.List? || op.ListRef? || op.ListTail?
  }

  /** `ListList`: the cell for the first argument is made after the list of
      the other arguments (the recursive call is the constructor's argument). */
  function BuildList(h: Heap, args: seq<Value>): (o: Outcome)
    requires Wf(h) && AllOk(args, h)
    ensures Fine(h, o) && o.r.Ok?
    ensures |o.h.cells| == |h.cells| + |args| && o.h.cells[..|h.cells|] == h.cells
    ensures o.h.frames == h.frames && o.h.closures == h.closures
    ensures args == [] ==> o == Outcome(h, Ok(Nil))
    ensures args != [] ==> o.r.value == Pair(|o.h.cells| - 1)
    decreases |args|
  {
    if args == [] then Outcome(h, Ok(Nil))
    else
      var rest := BuildList(h, args[1..]);
      var h2 := NewCell(rest.h, args[0], rest.r.value);
      Outcome(h2, Ok(Pair(|rest.h.cells|)))
  }

  /** The loop of `ListRefList`: step along `second` while the counter is
      positive and the current value is a cell. */
  function RefWalk(h: Heap, cell: Value, counter: int): (r: Result<Value>)
    requires Wf(h) && ValueOk(cell, h)
    ensures r.Ok? ==> ValueOk(r.value, h)
    ensures r.Err? ==> r.error == RuntimeError
    decreases if counter > 0 then counter else 0
  {
    if counter > 0 && cell.Pair? then RefWalk(h, h.cells[cell.cell].second, counter - 1)
    else if !cell.Pair? then Err(RuntimeError)
    else Ok(h.cells[cell.cell].first)
  }

  /** The loop of `ListTailList`: the values of the `second` fields met
      after `next`, up to and including the empty value; a non-pair other
      than the empty value is dereferenced as a cell, which crashes. */
  function TailsFrom(h: Heap, next: Value, bound: nat): (r: Result<seq<Value>>)
    requires Wf(h) && ValueOk(next, h)
    ensures r.Ok? ==> AllOk(r.value, h)
    ensures r.Err? ==> r.error == Undefined || r.error == OutOfFuel
    decreases bound
  {
    if next == Nil then Ok([])
    else if !next.Pair? then Err(Undefined)
    else if bound == 0 then Err(OutOfFuel)
    else
      var n2 := h.cells[next.cell].second;
      var rest := TailsFrom(h, n2, bound - 1);
      if rest.Err? then rest else Ok([n2] + rest.value)
  }

  /** `ConsList`, `CarList`, `CdrList`, `SetCarList`, `SetCdrList`,
      `ListList`, `ListRefList` and `ListTailList` on their (evaluated)
      arguments. */
  function ListOp(h: Heap, op: Builtin, args: seq<Value>): (o: Outcome)
    requires IsListOp(op) && Wf(h) && AllOk(args, h)
    ensures Fine(h, o)
  {
    match op
    case Cons =>
      if |args| != 2 then Outcome(h, Err(RuntimeError))
      else Outcome(NewCell(h, args[0], args[1]), Ok(Pair(|h.cells|)))
    case Car =>
      if |args| != 1 then Outcome(h, Err(RuntimeError))
      else if !args[0].Pair? then Outcome(h, Err(RuntimeError))
      else Outcome(h, Ok(h.cells[args[0].cell].first))
    case Cdr =>
      if |args| != 1 then Outcome(h, Err(RuntimeError))
      else if !args[0].Pair? then Outcome(h, Err(RuntimeError))
      else Outcome(h, Ok(h.cells[args[0].cell].second))
    case SetCar =>
      if |args| != 2 then Outcome(h, Err(RuntimeError))
      else if !args[0].Pair? then Outcome(h, Err(RuntimeError))
      else
        var h2 := SetFirst(h, args[0].cell, args[1]);
        Outcome(h2, Ok(h2.cells[args[0].cell].first))
    case SetCdr =>
      if |args| != 2 then Outcome(h, Err(RuntimeError))
      else if !args[0].Pair? then Outcome(h, Err(RuntimeError))
      else
        var h2 := SetSecond(h, args[0].cell, args[1]);
        Outcome(h2, Ok(h2.cells[args[0].cell].second))
    case List => BuildList(h, args)
    case ListRef =>
      if |args| != 2 then Outcome(h, Err(RuntimeError))
      else if !args[0].Pair? then Outcome(h, Err(RuntimeError))
      else if !args[1].Number? then Outcome(h, Err(RuntimeError))
      else Outcome(h, RefWalk(h, args[0], args[1].n))
    case ListTail =>
      if |args| != 2 then Outcome(h, Err(RuntimeError))
      else if !args[0].Pair? then Outcome(h, Err(RuntimeError))
      else if !args[1].Number? then Outcome(h, Err(RuntimeError))
      else
        var next := h.cells[args[0].cell].second;
        var tails := TailsFrom(h, next, |h.cells|);
        if tails.Err? then Outcome(h, Err(tails.error))
        else
          var results := [args[0], next] + tails.value;
          var k := args[1].n;
          // `counter < results.size()` compares as unsigned: a negative
          // counter is out of range
          if 0 <= k < |results| then Outcome(h, Ok(results[k]))
          else Outcome(h, Err(RuntimeError))
  }
}
