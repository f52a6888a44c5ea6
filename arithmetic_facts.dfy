/** What the integer builtins compute (scheme/functions.cpp:123-393), stated
    against plain arithmetic.  The builtins evaluate each argument once more;
    a number evaluates to itself, so on numbers the second evaluation
    changes nothing, while on a symbol it looks the symbol up again. */
module ArithmeticFacts {
  import opened Base
  import opened Objects
  import opened Heaps
  import opened Scopes
  import opened Builtins
  import opened Evaluator

  predicate AllNumbers(args: seq<Value>) {
    forall i :: 0 <= i < |args| ==> args[i].Number?
  }

  /** The numbers of a sequence of Number values. */
  function Nums(args: seq<Value>): (ns: seq<int>)
    requires AllNumbers(args)
    ensures |ns| == |args| && forall i :: 0 <= i < |args| ==> ns[i] == args[i].n
    decreases |args|
  {
    if args == [] then [] else [args[0].n] + Nums(args[1..])
  }

  function Sum(ns: seq<int>): int
    decreases |ns|
  {
    if ns == [] then 0 else Sum(ns[..|ns| - 1]) + ns[|ns| - 1]
  }

  function Product(ns: seq<int>): int
    decreases |ns|
  {
    if ns == [] then 1 else Product(ns[..|ns| - 1]) * ns[|ns| - 1]
  }

  /** What `+`, `-` or `*` has computed after the first `k` numbers: the sum,
      the first number less the sum of the others, the product. */
  function Partial(op: Builtin, ns: seq<int>, k: nat): int
    requires (op.Add? || op.Sub? || op.Mul?) && k <= |ns|
  {
    match op
    case Add => Sum(ns[..k])
    case Mul => Product(ns[..k])
    case Sub => if k == 0 then 0 else ns[0] - Sum(ns[1..k])
  }

  /** Every intermediate value from step `i + 1` on fits in `int64_t`; one
      that does not is signed overflow. */
  predicate InRangeFrom(op: Builtin, ns: seq<int>, i: nat)
    requires op.Add? || op.Sub? || op.Mul?
  {
    forall k :: i < k <= |ns| ==> InInt64(Partial(op, ns, k))
  }

  /** One step of the accumulator loop on a number. */
  lemma CombineStep(op: Builtin, ns: seq<int>, i: nat)
    requires (op.Add? || op.Sub? || op.Mul?) && i < |ns|
    ensures Combine(op, i == 0, Partial(op, ns, i), ns[i]) == Checked(Partial(op, ns, i + 1))
  {
    assert ns[..i + 1][..i] == ns[..i];
    if op.Sub? && i > 0 {
      assert ns[1..i + 1][..i - 1] == ns[1..i];
    }
  }

  /** The intermediate values from step `i + 1` on fit when the next one
      does and those after it do. */
  lemma InRangeStep(op: Builtin, ns: seq<int>, i: nat)
    requires (op.Add? || op.Sub? || op.Mul?) && i < |ns|
    ensures InRangeFrom(op, ns, i) <==> InInt64(Partial(op, ns, i + 1)) && InRangeFrom(op, ns, i + 1)
  {
  }

  /** One step of the accumulator loop over a number argument: the number
      is combined with the accumulator and the store is unchanged. */
  lemma FoldStep(h: Heap, env: nat, op: Builtin, args: seq<Value>, i: nat, acc: int, fuel: nat)
    requires Ready(h, env) && AllOk(args, h) && IsArith(op) && i < |args| && args[i].Number?
    ensures var next := Combine(op, i == 0, acc, args[i].n);
      Fold(h, env, op, args, i, acc, fuel) ==
        if next.Err? then Outcome(h, Err(next.error)) else Fold(h, env, op, args, i + 1, next.value, fuel)
  {
    assert Eval(h, env, args[i], fuel) == Outcome(h, Ok(args[i]));
  }

  /** The accumulator loop of the arithmetic builtins on plain numbers,
      without the store: each number is combined with the accumulator in
      turn, and the first failed step is the answer. */
  function FoldNums(op: Builtin, ns: seq<int>, i: nat, acc: int): Result<int>
    requires IsArith(op) && i <= |ns|
    decreases |ns| - i
  {
    if i == |ns| then Ok(acc)
    else
      var next := Combine(op, i == 0, acc, ns[i]);
      if next.Err? then next else FoldNums(op, ns, i + 1, next.value)
  }

  /** A number result as the value the builtin answers. */
  function AsValue(r: Result<int>): Result<Value> {
    if r.Ok? then Ok(Number(r.value)) else Err(r.error)
  }

  /** One turn of the loop over a number argument agrees with one turn of
      the loop over its number: if the loops agree from the next argument
      on, they agree from this one. */
  lemma FoldIsFoldNumsStep(h: Heap, env: nat, op: Builtin, args: seq<Value>, i: nat, acc: int, fuel: nat)
    requires Ready(h, env) && AllOk(args, h) && IsArith(op) && AllNumbers(args) && i < |args|
    ensures var next := Combine(op, i == 0, acc, Nums(args)[i]);
      (next.Ok? ==> Fold(h, env, op, args, i + 1, next.value, fuel) ==
                      Outcome(h, AsValue(FoldNums(op, Nums(args), i + 1, next.value)))) ==>
      Fold(h, env, op, args, i, acc, fuel) == Outcome(h, AsValue(FoldNums(op, Nums(args), i, acc)))
  {
    assert args[i].Number? && args[i].n == Nums(args)[i];
    FoldStep(h, env, op, args, i, acc, fuel);
  }

  /** Over number arguments the loop of the builtins is the loop over their
      numbers, and it leaves the store as it was. */
  lemma {:induction false} FoldIsFoldNums(h: Heap, env: nat, op: Builtin, args: seq<Value>, i: nat, acc: int, fuel: nat)
    requires Ready(h, env) && AllOk(args, h) && IsArith(op) && AllNumbers(args) && i <= |args|
    ensures Fold(h, env, op, args, i, acc, fuel) == Outcome(h, AsValue(FoldNums(op, Nums(args), i, acc)))
    decreases |args| - i
  {
    if i < |args| {
      var next := Combine(op, i == 0, acc, Nums(args)[i]);
      if next.Ok? {
        FoldIsFoldNums(h, env, op, args, i + 1, next.value, fuel);
      }
      FoldIsFoldNumsStep(h, env, op, args, i, acc, fuel);
    }
  }

  /** The loop of `+`, `-` and `*` on numbers from step `i` on. */
  lemma {:induction false} NumsFoldFrom(op: Builtin, ns: seq<int>, i: nat)
    requires (op.Add? || op.Sub? || op.Mul?) && i <= |ns|
    ensures FoldNums(op, ns, i, Partial(op, ns, i)) ==
      if InRangeFrom(op, ns, i) then Ok(Partial(op, ns, |ns|)) else Err(Undefined)
    decreases |ns| - i
  {
    if i < |ns| {
      CombineStep(op, ns, i);
      InRangeStep(op, ns, i);
      if InInt64(Partial(op, ns, i + 1)) {
        NumsFoldFrom(op, ns, i + 1);
      }
    }
  }

  /** The loop of `+`, `-` and `*` from argument `i` on, over numbers. */
  lemma FoldFrom(h: Heap, env: nat, op: Builtin, args: seq<Value>, i: nat, fuel: nat)
    requires Ready(h, env) && AllOk(args, h) && (op.Add? || op.Sub? || op.Mul?) && AllNumbers(args) && i <= |args|
    ensures Fold(h, env, op, args, i, Partial(op, Nums(args), i), fuel) ==
      Outcome(h, if InRangeFrom(op, Nums(args), i) then Ok(Number(Partial(op, Nums(args), |args|))) else Err(Undefined))
  {
    FoldIsFoldNums(h, env, op, args, i, Partial(op, Nums(args), i), fuel);
    NumsFoldFrom(op, Nums(args), i);
  }

  /** `+` and `*` over numbers give their sum and product, and `-` gives the
      first number less the others, unless an intermediate value overflows
      (scheme/functions.cpp:123-182).  So `(+)` is 0 and `(*)` is 1. */
  lemma ArithmeticOfNumbers(h: Heap, env: nat, op: Builtin, args: seq<Value>, fuel: nat)
    requires Ready(h, env) && AllOk(args, h) && (op.Add? || op.Sub? || op.Mul?) && AllNumbers(args)
    requires op.Sub? ==> args != []
    ensures ApplyPrim(h, env, op, args, fuel) ==
      Outcome(h, if InRangeFrom(op, Nums(args), 0) then Ok(Number(Partial(op, Nums(args), |args|))) else Err(Undefined))
  {
    FoldFrom(h, env, op, args, 0, fuel);
    assert Nums(args)[..0] == [];
  }

  /** `-` and `/` need an argument (scheme/functions.cpp:143-145, 187-189). */
  lemma SubDivNeedArguments(h: Heap, env: nat, fuel: nat)
    requires Ready(h, env)
    ensures ApplyPrim(h, env, Sub, [], fuel) == Outcome(h, Err(RuntimeError))
    ensures ApplyPrim(h, env, Div, [], fuel) == Outcome(h, Err(RuntimeError))
  {
  }

  /** `(/ a b)` is C++ division, truncating toward zero; dividing by zero is
      undefined behaviour (scheme/functions.cpp:184-209). */
  lemma DivideTwo(h: Heap, env: nat, a: int, b: int, fuel: nat)
    requires Ready(h, env) && InInt64(a)
    ensures var o := ApplyPrim(h, env, Div, [Number(a), Number(b)], fuel);
      && o.h == h
      && (b == 0 ==> o.r == Err(Undefined))
      && (b != 0 && InInt64(TruncDiv(a, b)) ==> o.r == Ok(Number(TruncDiv(a, b))))
      && (b != 0 && !InInt64(TruncDiv(a, b)) ==> o.r == Err(Undefined))
  {
    var args := [Number(a), Number(b)];
    FoldStep(h, env, Div, args, 0, 1, fuel);
    assert Combine(Div, true, 1, a) == Ok(a);
    FoldStep(h, env, Div, args, 1, a, fuel);
  }

  /** C++ division of the numbers left to right: the first number, then
      the quotient so far divided by each later one, truncating toward
      zero.  A zero divisor, or a value outside `int64_t`, is undefined
      behaviour. */
  function Quotient(ns: seq<int>): (r: Result<int>)
    requires ns != []
    ensures r.Err? ==> r.error == Undefined
    ensures r.Ok? ==> InInt64(r.value)
    decreases |ns|
  {
    if |ns| == 1 then Checked(ns[0])
    else
      var q := Quotient(ns[..|ns| - 1]);
      if q.Err? then q
      else if ns[|ns| - 1] == 0 then Err(Undefined)
      else Checked(TruncDiv(q.value, ns[|ns| - 1]))
  }

  /** Once a prefix is undefined, so is the whole. */
  lemma {:induction false} QuotientErrStays(ns: seq<int>, k: nat)
    requires 1 <= k <= |ns| && Quotient(ns[..k]).Err?
    ensures Quotient(ns).Err?
    decreases |ns| - k
  {
    if k < |ns| {
      assert ns[..k + 1][..k] == ns[..k];
      QuotientErrStays(ns, k + 1);
    } else {
      assert ns[..k] == ns;
    }
  }

  /** The loop of `/` on numbers from step `i >= 1` on. */
  lemma {:induction false} DivNumsFrom(ns: seq<int>, i: nat)
    requires 1 <= i <= |ns| && Quotient(ns[..i]).Ok?
    ensures FoldNums(Div, ns, i, Quotient(ns[..i]).value) ==
      if Quotient(ns).Ok? then Ok(Quotient(ns).value) else Err(Undefined)
    decreases |ns| - i
  {
    if i == |ns| {
      assert ns[..i] == ns;
    } else {
      assert ns[..i + 1][..i] == ns[..i];
      assert Combine(Div, false, Quotient(ns[..i]).value, ns[i]) == Quotient(ns[..i + 1]);
      if Quotient(ns[..i + 1]).Ok? {
        DivNumsFrom(ns, i + 1);
      } else {
        QuotientErrStays(ns, i + 1);
      }
    }
  }

  /** The loop of `/` from argument `i >= 1` on, over numbers. */
  lemma DivFoldFrom(h: Heap, env: nat, args: seq<Value>, ns: seq<int>, i: nat, fuel: nat)
    requires Ready(h, env) && AllOk(args, h) && |ns| == |args| && forall j :: 0 <= j < |args| ==> args[j] == Number(ns[j])
    requires 1 <= i <= |args| && Quotient(ns[..i]).Ok?
    ensures Fold(h, env, Div, args, i, Quotient(ns[..i]).value, fuel) ==
      Outcome(h, if Quotient(ns).Ok? then Ok(Number(Quotient(ns).value)) else Err(Undefined))
  {
    assert AllNumbers(args);
    assert Nums(args) == ns;
    FoldIsFoldNums(h, env, Div, args, i, Quotient(ns[..i]).value, fuel);
    DivNumsFrom(ns, i);
  }

  /** `/` over one or more numbers divides the first by each later one in
      turn, as C++ does, unless a divisor is zero or a value overflows
      (scheme/functions.cpp:184-209).  So `(/ a)` is `a`. */
  lemma DivisionOfNumbers(h: Heap, env: nat, args: seq<Value>, fuel: nat)
    requires Ready(h, env) && AllOk(args, h) && AllNumbers(args) && args != []
    ensures ApplyPrim(h, env, Div, args, fuel) ==
      Outcome(h, if Quotient(Nums(args)).Ok? then Ok(Number(Quotient(Nums(args)).value)) else Err(Undefined))
  {
    var ns := Nums(args);
    assert ns[..1] == [ns[0]];
    assert Combine(Div, true, 1, ns[0]) == Quotient(ns[..1]);
    assert Eval(h, env, args[0], fuel) == Outcome(h, Ok(Number(ns[0])));
    if Quotient(ns[..1]).Ok? {
      assert Fold(h, env, Div, args, 0, 1, fuel) == Fold(h, env, Div, args, 1, ns[0], fuel);
      DivFoldFrom(h, env, args, ns, 1, fuel);
    } else {
      assert Fold(h, env, Div, args, 0, 1, fuel) == Outcome(h, Err(Undefined));
      QuotientErrStays(ns, 1);
    }
  }

  /** `(/ a b c)` is `(a / b) / c`, each step truncating toward zero. */
  lemma DivideThree(a: int, b: int, c: int)
    requires InInt64(a) && b != 0 && c != 0 && InInt64(TruncDiv(a, b))
    ensures Quotient([a, b, c]) == Checked(TruncDiv(TruncDiv(a, b), c))
    ensures Quotient([a]) == Ok(a)
  {
    assert [a, b, c][..2] == [a, b];
    assert [a, b][..1] == [a];
    assert Quotient([a]) == Ok(a);
    assert Quotient([a, b]) == Ok(TruncDiv(a, b));
  }

  /** A non-number argument is evaluated once more: `(+ 'x)` gives the value
      of `x` when that is a number (scheme/functions.cpp:128). */
  lemma SymbolArgumentIsLookedUpAgain(h: Heap, env: nat, x: string, n: int, fuel: nat)
    requires Ready(h, env) && Lookup(h, env, x) == Ok(Number(n)) && InInt64(n)
    ensures ApplyPrim(h, env, Add, [Symbol(x)], fuel) == Outcome(h, Ok(Number(n)))
  {
    var args := [Symbol(x)];
    assert Fold(h, env, Add, args, 0, 0, fuel) == Fold(h, env, Add, args, 1, n, fuel);
  }

  // ---------------------------------------------------------------------
  // Comparisons

  /** Every adjacent pair of `ns` satisfies the relation of `op`. */
  predicate Chained(op: Builtin, ns: seq<int>)
    requires IsComparison(op)
  {
    forall i :: 0 <= i < |ns| - 1 ==> Holds(op, ns[i], ns[i + 1])
  }

  /** One step of the comparison loop on a number. */
  lemma CompareStep(h: Heap, env: nat, op: Builtin, args: seq<Value>, i: nat, p: int, fuel: nat)
    requires Ready(h, env) && AllOk(args, h) && IsComparison(op) && i < |args| && args[i].Number?
    ensures Compare(h, env, op, args, i, Some(p), fuel) ==
      if Holds(op, p, args[i].n) then Compare(h, env, op, args, i + 1, Some(args[i].n), fuel) else Outcome(h, Ok(False))
  {
    assert Eval(h, env, args[i], fuel) == Outcome(h, Ok(args[i]));
  }

  /** One more related pair extends a chained prefix. */
  lemma ChainedStep(op: Builtin, ns: seq<int>, i: nat)
    requires IsComparison(op) && 0 < i < |ns| && Chained(op, ns[..i]) && Holds(op, ns[i - 1], ns[i])
    ensures Chained(op, ns[..i + 1])
  {
    var ms := ns[..i + 1];
    forall j | 0 <= j < |ms| - 1
      ensures Holds(op, ms[j], ms[j + 1])
    {
      if j < i - 1 {
        assert ms[j] == ns[..i][j] && ms[j + 1] == ns[..i][j + 1];
      }
    }
  }

  /** One unrelated pair breaks the chain. */
  lemma ChainedBreaks(op: Builtin, ns: seq<int>, i: nat)
    requires IsComparison(op) && 0 < i < |ns| && !Holds(op, ns[i - 1], ns[i])
    ensures !Chained(op, ns)
  {
    assert !Holds(op, ns[i - 1], ns[(i - 1) + 1]);
  }

  lemma {:induction false} CompareFrom(h: Heap, env: nat, op: Builtin, args: seq<Value>, ns: seq<int>, i: nat, fuel: nat)
    requires Ready(h, env) && AllOk(args, h) && IsComparison(op)
    requires |ns| == |args| && forall j :: 0 <= j < |args| ==> args[j] == Number(ns[j])
    requires 0 < i <= |args| && Chained(op, ns[..i])
    ensures Compare(h, env, op, args, i, Some(ns[i - 1]), fuel) == Outcome(h, Ok(Bool(Chained(op, ns))))
    decreases |args| - i
  {
    if i == |args| {
      assert ns[..i] == ns;
    } else {
      CompareStep(h, env, op, args, i, ns[i - 1], fuel);
      assert args[i].n == ns[i];
      if Holds(op, ns[i - 1], ns[i]) {
        ChainedStep(op, ns, i);
        CompareFrom(h, env, op, args, ns, i + 1, fuel);
      } else {
        ChainedBreaks(op, ns, i);
      }
    }
  }

  /** `=`, `>`, `<`, `>=` and `<=` over numbers answer `#t` exactly when
      every adjacent pair satisfies the relation; so no argument or one gives
      `#t` (scheme/functions.cpp:211-324). */
  lemma ComparisonOfNumbers(h: Heap, env: nat, op: Builtin, args: seq<Value>, fuel: nat)
    requires Ready(h, env) && AllOk(args, h) && IsComparison(op) && AllNumbers(args)
    ensures ApplyPrim(h, env, op, args, fuel) == Outcome(h, Ok(Bool(Chained(op, Nums(args)))))
  {
    var ns := Nums(args);
    assert ApplyPrim(h, env, op, args, fuel) == Compare(h, env, op, args, 0, None, fuel);
    if args != [] {
      assert Eval(h, env, args[0], fuel) == Outcome(h, Ok(Number(ns[0])));
      assert Compare(h, env, op, args, 0, None, fuel) == Compare(h, env, op, args, 1, Some(ns[0]), fuel);
      CompareFrom(h, env, op, args, ns, 1, fuel);
    }
  }

  // ---------------------------------------------------------------------
  // min and max

  /** `b` is one of the first `i` numbers and bounds all of them. */
  predicate Extremal(op: Builtin, ns: seq<int>, i: nat, b: int)
    requires op.Min? || op.Max?
    requires i <= |ns|
  {
    (exists j :: 0 <= j < i && ns[j] == b)
    && forall j :: 0 <= j < i ==> if op.Min? then b <= ns[j] else b >= ns[j]
  }

  /** One more number keeps the better of it and the bound so far. */
  lemma ExtremalStep(op: Builtin, ns: seq<int>, i: nat, b: int)
    requires (op.Min? || op.Max?) && i < |ns| && Extremal(op, ns, i, b)
    ensures Extremal(op, ns, i + 1, if (if op.Min? then b > ns[i] else b < ns[i]) then ns[i] else b)
  {
    var j :| 0 <= j < i && ns[j] == b;
  }

  /** One step of the `min`/`max` loop on a number. */
  lemma ExtremeStep(h: Heap, env: nat, op: Builtin, args: seq<Value>, i: nat, b: int, fuel: nat)
    requires Ready(h, env) && AllOk(args, h) && (op.Min? || op.Max?) && i < |args| && args[i].Number?
    ensures Extreme(h, env, op, args, i, Some(b), fuel) ==
      Extreme(h, env, op, args, i + 1, Some(if (if op.Min? then b > args[i].n else b < args[i].n) then args[i].n else b), fuel)
  {
    assert Eval(h, env, args[i], fuel) == Outcome(h, Ok(args[i]));
  }

  lemma {:induction false} ExtremeFrom(h: Heap, env: nat, op: Builtin, args: seq<Value>, ns: seq<int>, i: nat, b: int, fuel: nat)
    requires Ready(h, env) && AllOk(args, h) && (op.Min? || op.Max?)
    requires |ns| == |args| && forall j :: 0 <= j < |args| ==> args[j] == Number(ns[j])
    requires 0 < i <= |args| && Extremal(op, ns, i, b)
    ensures var o := Extreme(h, env, op, args, i, Some(b), fuel);
      o.h == h && o.r.Ok? && o.r.value.Number? && Extremal(op, ns, |args|, o.r.value.n)
    decreases |args| - i
  {
    if i < |args| {
      assert args[i].n == ns[i];
      ExtremeStep(h, env, op, args, i, b, fuel);
      ExtremalStep(op, ns, i, b);
      ExtremeFrom(h, env, op, args, ns, i + 1, if (if op.Min? then b > ns[i] else b < ns[i]) then ns[i] else b, fuel);
    }
  }

  /** `min` and `max` over numbers return one of them that is at most
      (respectively at least) every other (scheme/functions.cpp:326-372). */
  lemma ExtremeOfNumbers(h: Heap, env: nat, op: Builtin, args: seq<Value>, fuel: nat)
    requires Ready(h, env) && AllOk(args, h) && (op.Min? || op.Max?) && AllNumbers(args) && args != []
    ensures var o := ApplyPrim(h, env, op, args, fuel);
      && o.h == h && o.r.Ok? && o.r.value.Number?
      && (exists j :: 0 <= j < |args| && args[j] == o.r.value)
      && forall j :: 0 <= j < |args| ==> if op.Min? then o.r.value.n <= args[j].n else o.r.value.n >= args[j].n
  {
    var ns := Nums(args);
    assert Extreme(h, env, op, args, 0, None, fuel) == Extreme(h, env, op, args, 1, Some(ns[0]), fuel);
    assert Extremal(op, ns, 1, ns[0]);
    ExtremeFrom(h, env, op, args, ns, 1, ns[0], fuel);
    var o := ApplyPrim(h, env, op, args, fuel);
    var j :| 0 <= j < |args| && ns[j] == o.r.value.n;
    assert args[j] == o.r.value;
  }

  /** `min` and `max` need an argument (scheme/functions.cpp:328-330,
      352-354). */
  lemma MinMaxNeedArguments(h: Heap, env: nat, fuel: nat)
    requires Ready(h, env)
    ensures ApplyPrim(h, env, Min, [], fuel) == Outcome(h, Err(RuntimeError))
    ensures ApplyPrim(h, env, Max, [], fuel) == Outcome(h, Err(RuntimeError))
  {
  }

  /** `abs` takes exactly one argument, which evaluated once more must be a
      number; otherwise it is a RuntimeError (scheme/functions.cpp:377-385). */
  lemma AbsArity(h: Heap, env: nat, args: seq<Value>, fuel: nat)
    requires Ready(h, env) && AllOk(args, h)
    ensures |args| != 1 ==> ApplyPrim(h, env, Abs, args, fuel) == Outcome(h, Err(RuntimeError))
    ensures |args| == 1 && Eval(h, env, args[0], fuel).r.Ok? && !Eval(h, env, args[0], fuel).r.value.Number? ==>
      ApplyPrim(h, env, Abs, args, fuel) == Outcome(Eval(h, env, args[0], fuel).h, Err(RuntimeError))
  {
  }

  /** `abs` of a number is its magnitude; of the least `int64_t` it
      overflows (scheme/functions.cpp:374-393). */
  lemma AbsOfNumber(h: Heap, env: nat, n: int, fuel: nat)
    requires Ready(h, env) && InInt64(n)
    ensures ApplyPrim(h, env, Abs, [Number(n)], fuel) ==
      Outcome(h, if n == INT64_MIN then Err(Undefined) else Ok(Number(if n < 0 then -n else n)))
  {
  }
}
