/** The evaluator performed in place on a `Store`, as the source performs
    it: the loops of `Cell::Eval` over the arguments, of the arithmetic and
    comparison builtins, of `and` and `or`, of `lambda` over the parameter
    names, of `LambdaClosure::Apply` and of `list-ref` and `list-tail`, and
    the in-place updates of cells and scopes.  Each method is proved to
    leave the store, and return the result, that the function of the same
    name in eval.dfy (or builtins.dfy) gives. */
module Machine {
  import opened Base
  import opened Objects
  import opened Heaps
  import opened Lists
  import opened Builtins
  import opened Evaluator
  import Scopes
  import Stores
  import Printer

  // ---------------------------------------------------------------------
  // Prefixes of a sequence computed so far

  /** `done` before the values of `o`, or the error of `o`. */
  function Join(done: seq<Value>, o: Outcomes): (r: Outcomes)
    ensures r.h == o.h && (r.r.Ok? <==> o.r.Ok?)
    ensures o.r.Ok? ==> r.r.value == done + o.r.value
    ensures o.r.Err? ==> r.r == o.r
  {
    if o.r.Err? then o else Outcomes(o.h, Ok(done + o.r.value))
  }

  /** One step of the argument loop: the value of argument `i` moves from
      the rest into the prefix. */
  lemma ArgsStep(h: Heap, env: nat, args: seq<Value>, i: nat, done: seq<Value>, fuel: nat)
    requires Ready(h, env) && AllOk(args, h) && i < |args|
    ensures var o1 := Eval(h, env, args[i], fuel);
      && (o1.r.Err? ==> Join(done, EvalArgs(h, env, args[i..], fuel)) == Outcomes(o1.h, Err(o1.r.error)))
      && (o1.r.Ok? ==> Join(done, EvalArgs(h, env, args[i..], fuel))
                       == Join(done + [o1.r.value], EvalArgs(o1.h, env, args[i + 1..], fuel)))
  {
    assert args[i..][0] == args[i] && args[i..][1..] == args[i + 1..];
    var o1 := Eval(h, env, args[i], fuel);
    if o1.r.Ok? {
      var rest := EvalArgs(o1.h, env, args[i + 1..], fuel);
      if rest.r.Ok? {
        assert done + ([o1.r.value] + rest.r.value) == done + [o1.r.value] + rest.r.value;
      }
    }
  }

  /** `done` before the items of `r`, or the error of `r`. */
  function JoinItems<T>(done: seq<T>, r: Result<seq<T>>): (j: Result<seq<T>>)
    ensures j.Ok? <==> r.Ok?
    ensures r.Ok? ==> j.value == done + r.value
    ensures r.Err? ==> j == r
  {
    if r.Err? then r else Ok(done + r.value)
  }

  // ---------------------------------------------------------------------
  // Object::Eval and Cell::Eval

  /** `Eval` of an object (parser.cpp:16-18, 32-34, 48-50, 60-62, 72-102). */
  method EvalIn(s: Stores.Store, env: nat, e: Value, fuel: nat) returns (r: Result<Value>)
    requires Ready(s.Snapshot(), env) && ValueOk(e, s.Snapshot())
    modifies s
    ensures Outcome(s.Snapshot(), r) == Eval(old(s.Snapshot()), env, e, fuel)
    decreases fuel, 0
  {
    match e
    case Nil => r := Err(Undefined);
    case Number(_) => r := Ok(e);
    case Symbol(name) => r := s.Lookup(env, name);
    case True => r := s.Lookup(env, "#t");
    case False => r := s.Lookup(env, "#f");
    case Prim(_) => r := Err(RuntimeError);
    case Closure(_) => r := Err(RuntimeError);
    case Syntax(_) => r := Err(RuntimeError);
    case Pair(c) =>
      if fuel == 0 {
        r := Err(OutOfFuel);
      } else {
        r := EvalCellIn(s, env, c, fuel - 1);
      }
  }

  /** `Cell::Eval` (parser.cpp:72-102). */
  method EvalCellIn(s: Stores.Store, env: nat, c: nat, fuel: nat) returns (r: Result<Value>)
    requires Ready(s.Snapshot(), env) && c < |s.cells|
    modifies s
    ensures Outcome(s.Snapshot(), r) == EvalCell(old(s.Snapshot()), env, c, fuel)
    decreases fuel, 5
  {
    var fn := EvalIn(s, env, s.GetFirst(c), fuel);
    if fn.Err? {
      return fn;
    }
    var tfn := fn.value;
    if !IsCallable(tfn) && s.GetSecond(c) == Nil {
      return fn;
    }
    if !IsCallable(tfn) {
      var again := EvalIn(s, env, tfn, fuel);
      if again.Err? {
        return again;
      }
      if !IsFunction(again.value) {
        return Err(if Printer.Render(s.Snapshot(), again.value).Err? then OutOfFuel else RuntimeError);
      }
      r := CallIn(s, env, again.value, c, fuel);
    } else if tfn.Syntax? {
      var args := ToVector(s.Snapshot(), s.GetSecond(c));
      if args.Err? {
        return Err(args.error);
      }
      r := ApplySyntaxIn(s, env, tfn.form, args.value, fuel);
    } else {
      r := CallIn(s, env, tfn, c, fuel);
    }
  }

  /** The function branch of `Cell::Eval` (parser.cpp:93-98): each element
      of the argument vector is overwritten by its value, left to right. */
  method CallIn(s: Stores.Store, env: nat, fn: Value, c: nat, fuel: nat) returns (r: Result<Value>)
    requires Ready(s.Snapshot(), env) && c < |s.cells| && IsFunction(fn) && ValueOk(fn, s.Snapshot())
    modifies s
    ensures Outcome(s.Snapshot(), r) == CallFunction(old(s.Snapshot()), env, fn, c, fuel)
    decreases fuel, 4
  {
    var list := ToVector(s.Snapshot(), s.GetSecond(c));
    if list.Err? {
      return Err(list.error);
    }
    ghost var h0 := s.Snapshot();
    ghost var args0 := list.value;
    var args := list.value;
    var i := 0;
    ghost var all := EvalArgs(h0, env, args0, fuel);
    assert args[..0] == [] && args0[0..] == args0;
    if all.r.Ok? {
      assert [] + all.r.value == all.r.value;
    }
    while i < |args|
      invariant |args| == |args0| && 0 <= i <= |args|
      invariant args[i..] == args0[i..]
      invariant Ready(s.Snapshot(), env) && Grows(h0, s.Snapshot()) && AllOk(args0, s.Snapshot())
      invariant EvalArgs(h0, env, args0, fuel) == Join(args[..i], EvalArgs(s.Snapshot(), env, args0[i..], fuel))
    {
      ghost var before := s.Snapshot();
      ArgsStep(before, env, args0, i, args[..i], fuel);
      var v := EvalIn(s, env, args[i], fuel);
      if v.Err? {
        return Err(v.error);
      }
      AllOkGrows(args0, before, s.Snapshot());
      assert args[..i] + [v.value] == args[i := v.value][..i + 1];
      args := args[i := v.value];
      i := i + 1;
    }
    assert args[..i] == args && args + [] == args;
    assert args0[i..] == [];
    assert EvalArgs(s.Snapshot(), env, args0[i..], fuel) == Outcomes(s.Snapshot(), Ok([]));
    r := ApplyIn(s, env, fn, args, fuel);
  }

  /** `Function::Apply`. */
  method ApplyIn(s: Stores.Store, env: nat, fn: Value, args: seq<Value>, fuel: nat) returns (r: Result<Value>)
    requires Ready(s.Snapshot(), env) && IsFunction(fn) && ValueOk(fn, s.Snapshot()) && AllOk(args, s.Snapshot())
    modifies s
    ensures Outcome(s.Snapshot(), r) == Apply(old(s.Snapshot()), env, fn, args, fuel)
    decreases fuel, 3
  {
    if fn.Prim? {
      r := ApplyPrimIn(s, env, fn.op, args, fuel);
    } else {
      r := ApplyClosureIn(s, fn.id, args, fuel);
    }
  }

  // ---------------------------------------------------------------------
  // Builtins

  /** The `Apply` of each builtin (scheme/functions.cpp). */
  method ApplyPrimIn(s: Stores.Store, env: nat, op: Builtin, args: seq<Value>, fuel: nat) returns (r: Result<Value>)
    requires Ready(s.Snapshot(), env) && AllOk(args, s.Snapshot())
    modifies s
    ensures Outcome(s.Snapshot(), r) == ApplyPrim(old(s.Snapshot()), env, op, args, fuel)
    decreases fuel, 2
  {
    if IsPredicate(op) {
      r := Predicate(op, args);
    } else if op.ListP? {
      if |args| != 1 {
        return Err(RuntimeError);
      }
      var b := IsList(s.Snapshot(), args[0]);
      if b.Err? {
        return Err(b.error);
      }
      r := Ok(Bool(b.value));
    } else if op.EqualP? || op.IntegerEqualP? {
      r := Err(NotImplemented);
    } else if IsArith(op) {
      if (op.Sub? || op.Div?) && args == [] {
        return Err(RuntimeError);
      }
      r := FoldIn(s, env, op, args, fuel);
    } else if IsComparison(op) {
      r := CompareIn(s, env, op, args, fuel);
    } else if op.Min? || op.Max? {
      if args == [] {
        return Err(RuntimeError);
      }
      r := ExtremeIn(s, env, op, args, fuel);
    } else if op.Abs? {
      if |args| != 1 {
        return Err(RuntimeError);
      }
      var v := EvalIn(s, env, args[0], fuel);
      if v.Err? {
        return v;
      }
      if !v.value.Number? {
        return Err(RuntimeError);
      }
      var a := AbsValue(v.value.n);
      if a.Err? {
        return Err(a.error);
      }
      r := Ok(Number(a.value));
    } else {
      r := ListOpIn(s, op, args);
    }
  }

  /** The accumulator loop of `AddInt`, `SubtractInt`, `MultiplyInt` and
      `DivideInt` (scheme/functions.cpp:123-209); every argument is
      evaluated once more before it is combined. */
  method FoldIn(s: Stores.Store, env: nat, op: Builtin, args: seq<Value>, fuel: nat) returns (r: Result<Value>)
    requires Ready(s.Snapshot(), env) && AllOk(args, s.Snapshot()) && IsArith(op)
    modifies s
    ensures Outcome(s.Snapshot(), r) == Fold(old(s.Snapshot()), env, op, args, 0, if op.Add? || op.Sub? then 0 else 1, fuel)
    decreases fuel, 1
  {
    var value := if op.Add? || op.Sub? then 0 else 1;
    var isFirst := true;
    var i := 0;
    while i < |args|
      invariant 0 <= i <= |args| && isFirst == (i == 0)
      invariant Ready(s.Snapshot(), env) && AllOk(args, s.Snapshot())
      invariant Fold(old(s.Snapshot()), env, op, args, 0, if op.Add? || op.Sub? then 0 else 1, fuel)
        == Fold(s.Snapshot(), env, op, args, i, value, fuel)
    {
      ghost var before := s.Snapshot();
      var v := EvalIn(s, env, args[i], fuel);
      if v.Err? {
        return v;
      }
      if !v.value.Number? {
        return Err(RuntimeError);
      }
      var next := Combine(op, isFirst, value, v.value.n);
      if next.Err? {
        return Err(next.error);
      }
      AllOkGrows(args, before, s.Snapshot());
      value := next.value;
      isFirst := false;
      i := i + 1;
    }
    r := Ok(Number(value));
  }

  /** The loop of `EqualInt`, `GreaterInt`, `LessInt`, `GreaterEqualInt`
      and `LessEqualInt` (scheme/functions.cpp:211-324). */
  method CompareIn(s: Stores.Store, env: nat, op: Builtin, args: seq<Value>, fuel: nat) returns (r: Result<Value>)
    requires Ready(s.Snapshot(), env) && AllOk(args, s.Snapshot()) && IsComparison(op)
    modifies s
    ensures Outcome(s.Snapshot(), r) == Compare(old(s.Snapshot()), env, op, args, 0, None, fuel)
    decreases fuel, 1
  {
    var first := true;
    var prevNumber := 0;
    var i := 0;
    while i < |args|
      invariant 0 <= i <= |args| && first == (i == 0)
      invariant Ready(s.Snapshot(), env) && AllOk(args, s.Snapshot())
      invariant Compare(old(s.Snapshot()), env, op, args, 0, None, fuel)
        == Compare(s.Snapshot(), env, op, args, i, if first then None else Some(prevNumber), fuel)
    {
      ghost var before := s.Snapshot();
      var v := EvalIn(s, env, args[i], fuel);
      if v.Err? {
        return v;
      }
      if !v.value.Number? {
        return Err(RuntimeError);
      }
      if !first && !Holds(op, prevNumber, v.value.n) {
        return Ok(False);
      }
      AllOkGrows(args, before, s.Snapshot());
      prevNumber := v.value.n;
      first := false;
      i := i + 1;
    }
    r := Ok(True);
  }

  /** The loop of `MinInt` and `MaxInt` (scheme/functions.cpp:326-372). */
  method ExtremeIn(s: Stores.Store, env: nat, op: Builtin, args: seq<Value>, fuel: nat) returns (r: Result<Value>)
    requires Ready(s.Snapshot(), env) && AllOk(args, s.Snapshot()) && (op.Min? || op.Max?)
    modifies s
    ensures Outcome(s.Snapshot(), r) == Extreme(old(s.Snapshot()), env, op, args, 0, None, fuel)
    decreases fuel, 1
  {
    var first := true;
    var best := 0;
    var i := 0;
    while i < |args|
      invariant 0 <= i <= |args| && first == (i == 0) && (first ==> best == 0)
      invariant Ready(s.Snapshot(), env) && AllOk(args, s.Snapshot())
      invariant Extreme(old(s.Snapshot()), env, op, args, 0, None, fuel)
        == Extreme(s.Snapshot(), env, op, args, i, if first then None else Some(best), fuel)
    {
      ghost var before := s.Snapshot();
      var v := EvalIn(s, env, args[i], fuel);
      if v.Err? {
        return v;
      }
      if !v.value.Number? {
        return Err(RuntimeError);
      }
      var n := v.value.n;
      if first || (if op.Min? then best > n else best < n) {
        best := n;
      }
      AllOkGrows(args, before, s.Snapshot());
      first := false;
      i := i + 1;
    }
    r := Ok(Number(best));
  }

  // ---------------------------------------------------------------------
  // Pairs and lists (scheme/functions.cpp:396-545)

  /** `ListList`: the list of the other arguments first, then the cell of
      the first one. */
  method BuildListIn(s: Stores.Store, args: seq<Value>) returns (r: Result<Value>)
    requires Wf(s.Snapshot()) && AllOk(args, s.Snapshot())
    modifies s
    ensures Outcome(s.Snapshot(), r) == BuildList(old(s.Snapshot()), args)
    decreases |args|
  {
    if args == [] {
      return Ok(Nil);
    }
    ghost var h0 := s.Snapshot();
    var rest := BuildListIn(s, args[1..]);
    var v := s.NewCell(args[0], rest.value);
    r := Ok(v);
  }

  /** The loop of `ListRefList` (scheme/functions.cpp:497-501). */
  method RefWalkIn(s: Stores.Store, cell: Value, counter: int) returns (r: Result<Value>)
    requires Wf(s.Snapshot()) && ValueOk(cell, s.Snapshot())
    ensures r == RefWalk(s.Snapshot(), cell, counter)
  {
    var current := cell;
    var n := counter;
    while n > 0 && current.Pair?
      invariant ValueOk(current, s.Snapshot())
      invariant RefWalk(s.Snapshot(), cell, counter) == RefWalk(s.Snapshot(), current, n)
      decreases n
    {
      current := s.GetSecond(current.cell);
      n := n - 1;
    }
    if !current.Pair? {
      return Err(RuntimeError);
    }
    r := Ok(s.GetFirst(current.cell));
  }

  /** The loop of `ListTailList` (scheme/functions.cpp:530-537): every
      `second` met after `next`, up to the empty value, is pushed onto the
      results; a walk longer than the store is cyclic and runs out. */
  method TailsIn(s: Stores.Store, next: Value) returns (r: Result<seq<Value>>)
    requires Wf(s.Snapshot()) && ValueOk(next, s.Snapshot())
    ensures r == TailsFrom(s.Snapshot(), next, |s.cells|)
  {
    var results: seq<Value> := [];
    var current := next;
    var bound: nat := |s.cells|;
    ghost var all := TailsFrom(s.Snapshot(), next, bound);
    if all.Ok? {
      assert [] + all.value == all.value;
    }
    while current != Nil
      invariant ValueOk(current, s.Snapshot())
      invariant TailsFrom(s.Snapshot(), next, |s.cells|) == JoinItems(results, TailsFrom(s.Snapshot(), current, bound))
      decreases bound
    {
      if !current.Pair? {
        return Err(Undefined);
      }
      if bound == 0 {
        return Err(OutOfFuel);
      }
      var second := s.GetSecond(current.cell);
      ghost var rest := TailsFrom(s.Snapshot(), second, bound - 1);
      if rest.Ok? {
        assert results + ([second] + rest.value) == results + [second] + rest.value;
      }
      results := results + [second];
      current := second;
      bound := bound - 1;
    }
    assert results + [] == results;
    r := Ok(results);
  }

  /** `ConsList`, `CarList`, `CdrList`, `SetCarList`, `SetCdrList`,
      `ListList`, `ListRefList` and `ListTailList` on the store. */
  method ListOpIn(s: Stores.Store, op: Builtin, args: seq<Value>) returns (r: Result<Value>)
    requires IsListOp(op) && Wf(s.Snapshot()) && AllOk(args, s.Snapshot())
    modifies s
    ensures Outcome(s.Snapshot(), r) == ListOp(old(s.Snapshot()), op, args)
  {
    if op.List? {
      r := BuildListIn(s, args);
      return;
    }
    if op.Cons? {
      if |args| != 2 {
        return Err(RuntimeError);
      }
      var v := s.NewCell(args[0], args[1]);
      return Ok(v);
    }
    if |args| != (if op.Car? || op.Cdr? then 1 else 2) || !args[0].Pair? {
      return Err(RuntimeError);
    }
    var c := args[0].cell;
    match op
    case Car => r := Ok(s.GetFirst(c));
    case Cdr => r := Ok(s.GetSecond(c));
    case SetCar =>
      s.SetFirst(c, args[1]);
      r := Ok(s.GetFirst(c));
    case SetCdr =>
      s.SetSecond(c, args[1]);
      r := Ok(s.GetSecond(c));
    case ListRef =>
      if !args[1].Number? {
        return Err(RuntimeError);
      }
      r := RefWalkIn(s, args[0], args[1].n);
    case ListTail =>
      if !args[1].Number? {
        return Err(RuntimeError);
      }
      var next := s.GetSecond(c);
      var tails := TailsIn(s, next);
      if tails.Err? {
        return Err(tails.error);
      }
      var results := [args[0], next] + tails.value;
      var counter := args[1].n;
      if 0 <= counter < |results| {
        r := Ok(results[counter]);
      } else {
        r := Err(RuntimeError);
      }
  }

  // ---------------------------------------------------------------------
  // Closures (scheme/functions.cpp:556-573)

  /** `LambdaClosure::Apply`: the parameters are inserted one by one into
      the closure's own frame, made once when the closure was built, so
      every call reuses it (scheme/functions.cpp:553, 563-564); then the
      body is evaluated in order in that frame. */
  method ApplyClosureIn(s: Stores.Store, k: nat, args: seq<Value>, fuel: nat) returns (r: Result<Value>)
    requires Wf(s.Snapshot()) && k < |s.closures| && AllOk(args, s.Snapshot())
    modifies s
    ensures Outcome(s.Snapshot(), r) == ApplyClosure(old(s.Snapshot()), k, args, fuel)
    decreases fuel, 2
  {
    var clo := s.closures[k];
    if |args| != |clo.params| {
      return Err(RuntimeError);
    }
    ghost var h0 := s.Snapshot();
    var it := 0;
    while it < |args|
      invariant 0 <= it <= |args| && Wf(s.Snapshot()) && clo.frame < |s.frames|
      invariant AllOk(args, s.Snapshot()) && AllOk(clo.body, s.Snapshot())
      invariant BindParams(h0, clo.frame, clo.params, args)
        == BindParams(s.Snapshot(), clo.frame, clo.params[it..], args[it..])
    {
      assert clo.params[it..][1..] == clo.params[it + 1..] && args[it..][1..] == args[it + 1..];
      s.Insert(clo.frame, clo.params[it], args[it]);
      it := it + 1;
    }
    ghost var h1 := s.Snapshot();
    var result := Nil;
    var i := 0;
    while i < |clo.body|
      invariant 0 <= i <= |clo.body| && Ready(s.Snapshot(), clo.frame)
      invariant AllOk(clo.body, s.Snapshot()) && ValueOk(result, s.Snapshot())
      invariant EvalBody(h1, clo.frame, clo.body, 0, Nil, fuel)
        == EvalBody(s.Snapshot(), clo.frame, clo.body, i, result, fuel)
    {
      ghost var before := s.Snapshot();
      var v := EvalIn(s, clo.frame, clo.body[i], fuel);
      if v.Err? {
        return v;
      }
      AllOkGrows(clo.body, before, s.Snapshot());
      result := v.value;
      i := i + 1;
    }
    r := Ok(result);
  }

  // ---------------------------------------------------------------------
  // Special forms (scheme/syntax.cpp)

  /** The `Apply` of each special form. */
  method ApplySyntaxIn(s: Stores.Store, env: nat, form: Form, args: seq<Value>, fuel: nat) returns (r: Result<Value>)
    requires Ready(s.Snapshot(), env) && AllOk(args, s.Snapshot())
    modifies s
    ensures Outcome(s.Snapshot(), r) == ApplySyntax(old(s.Snapshot()), env, form, args, fuel)
    decreases fuel, 2
  {
    match form
    case IfForm => r := IfIn(s, env, args, fuel);
    case QuoteForm =>
      if |args| != 1 {
        r := Err(RuntimeError);
      } else {
        r := Ok(args[0]);
      }
    case LambdaForm => r := LambdaIn(s, env, args);
    case AndForm => r := AndIn(s, env, args, fuel);
    case OrForm => r := OrIn(s, env, args, fuel);
    case DefineForm => r := DefineIn(s, env, args, fuel);
    case SetForm => r := SetIn(s, env, args, fuel);
    case EvalForm =>
      if |args| != 1 {
        return Err(SyntaxError);
      }
      var evaluated := EvalIn(s, env, args[0], fuel);
      if evaluated.Err? {
        return evaluated;
      }
      r := EvalIn(s, env, evaluated.value, fuel);
  }

  /** `IfSynt::Apply` (scheme/syntax.cpp:3-26). */
  method IfIn(s: Stores.Store, env: nat, args: seq<Value>, fuel: nat) returns (r: Result<Value>)
    requires Ready(s.Snapshot(), env) && AllOk(args, s.Snapshot())
    modifies s
    ensures Outcome(s.Snapshot(), r) == ApplySyntax(old(s.Snapshot()), env, IfForm, args, fuel)
    decreases fuel, 1
  {
    if |args| < 2 || |args| > 3 {
      return Err(SyntaxError);
    }
    var falseBranch := if |args| == 3 then args[2] else Nil;
    var result := EvalIn(s, env, args[0], fuel);
    if result.Err? {
      return result;
    }
    if result.value != Nil && !IsFalse(result.value) {
      r := EvalIn(s, env, args[1], fuel);
    } else if falseBranch != Nil {
      r := EvalIn(s, env, falseBranch, fuel);
    } else {
      r := Ok(Nil);
    }
  }

  /** The loop of `AndSynt::Apply` (scheme/syntax.cpp:73-88). */
  method AndIn(s: Stores.Store, env: nat, args: seq<Value>, fuel: nat) returns (r: Result<Value>)
    requires Ready(s.Snapshot(), env) && AllOk(args, s.Snapshot())
    modifies s
    ensures Outcome(s.Snapshot(), r) == AndFrom(old(s.Snapshot()), env, args, 0, fuel)
    decreases fuel, 1
  {
    var i := 0;
    while i < |args|
      invariant 0 <= i <= |args| && Ready(s.Snapshot(), env) && AllOk(args, s.Snapshot())
      invariant AndFrom(old(s.Snapshot()), env, args, 0, fuel) == AndFrom(s.Snapshot(), env, args, i, fuel)
    {
      ghost var before := s.Snapshot();
      var current := EvalIn(s, env, args[i], fuel);
      if current.Err? {
        return current;
      }
      if current.value == Nil {
        return Err(Undefined);
      }
      if IsFalse(current.value) {
        return Ok(False);
      }
      AllOkGrows(args, before, s.Snapshot());
      i := i + 1;
    }
    if args == [] {
      r := Ok(True);
    } else {
      r := EvalIn(s, env, args[|args| - 1], fuel);
    }
  }

  /** The loop of `OrSynt::Apply` (scheme/syntax.cpp:90-105). */
  method OrIn(s: Stores.Store, env: nat, args: seq<Value>, fuel: nat) returns (r: Result<Value>)
    requires Ready(s.Snapshot(), env) && AllOk(args, s.Snapshot())
    modifies s
    ensures Outcome(s.Snapshot(), r) == OrFrom(old(s.Snapshot()), env, args, 0, fuel)
    decreases fuel, 1
  {
    var i := 0;
    while i < |args|
      invariant 0 <= i <= |args| && Ready(s.Snapshot(), env) && AllOk(args, s.Snapshot())
      invariant OrFrom(old(s.Snapshot()), env, args, 0, fuel) == OrFrom(s.Snapshot(), env, args, i, fuel)
    {
      ghost var before := s.Snapshot();
      var current := EvalIn(s, env, args[i], fuel);
      if current.Err? {
        return current;
      }
      if current.value == Nil {
        return Err(Undefined);
      }
      if !IsFalse(current.value) {
        return current;
      }
      AllOkGrows(args, before, s.Snapshot());
      i := i + 1;
    }
    if args == [] {
      r := Ok(False);
    } else {
      r := EvalIn(s, env, args[|args| - 1], fuel);
    }
  }

  /** The loop of `LambdaSynt::Apply` over the parameter list
      (scheme/syntax.cpp:47-57); as in the source, the element is tested
      for emptiness, not the result of the cast. */
  method ParamNamesIn(vars: seq<Value>) returns (r: Result<seq<string>>)
    ensures r == ParamNames(vars)
  {
    var variables: seq<string> := [];
    var i := 0;
    ghost var all := ParamNames(vars);
    if all.Ok? {
      assert [] + all.value == all.value;
    }
    while i < |vars|
      invariant 0 <= i <= |vars|
      invariant ParamNames(vars) == JoinItems(variables, ParamNames(vars[i..]))
    {
      ParamStep(vars, i, variables);
      var name := SymbolName(vars[i]);
      if vars[i] == Nil {
        return Err(SyntaxError);
      }
      if name.None? {
        return Err(Undefined);
      }
      variables := variables + [name.value];
      i := i + 1;
    }
    assert variables + [] == variables;
    r := Ok(variables);
  }

  /** One step of the parameter loop. */
  lemma ParamStep(vars: seq<Value>, i: nat, done: seq<string>)
    requires i < |vars|
    ensures vars[i] == Nil ==> JoinItems(done, ParamNames(vars[i..])) == Err(SyntaxError)
    ensures vars[i] != Nil && SymbolName(vars[i]).None? ==> JoinItems(done, ParamNames(vars[i..])) == Err(Undefined)
    ensures vars[i] != Nil && SymbolName(vars[i]).Some? ==>
      JoinItems(done, ParamNames(vars[i..])) == JoinItems(done + [SymbolName(vars[i]).value], ParamNames(vars[i + 1..]))
  {
    assert vars[i..][0] == vars[i] && vars[i..][1..] == vars[i + 1..];
    var rest := ParamNames(vars[i + 1..]);
    if vars[i] != Nil && SymbolName(vars[i]).Some? && rest.Ok? {
      assert done + ([SymbolName(vars[i]).value] + rest.value) == done + [SymbolName(vars[i]).value] + rest.value;
    }
  }

  /** `LambdaSynt::Apply` (scheme/syntax.cpp:38-71): the closure, with its
      own new frame under the calling scope. */
  method LambdaIn(s: Stores.Store, env: nat, args: seq<Value>) returns (r: Result<Value>)
    requires Ready(s.Snapshot(), env) && AllOk(args, s.Snapshot())
    modifies s
    ensures Outcome(s.Snapshot(), r) == MakeLambda(old(s.Snapshot()), env, args)
  {
    if args == [] {
      return Err(SyntaxError);
    }
    var variables: seq<string> := [];
    if args[0] != Nil {
      var objects := ToVector(s.Snapshot(), args[0]);
      if objects.Err? {
        return Err(objects.error);
      }
      var names := ParamNamesIn(objects.value);
      if names.Err? {
        return Err(names.error);
      }
      variables := names.value;
    }
    if |args| < 2 {
      return Err(SyntaxError);
    }
    var local := s.NewScope(Some(env));
    var closure := s.NewClosure(variables, args[1..], local);
    r := Ok(closure);
  }

  /** `DefineSynt::Apply` (scheme/syntax.cpp:107-136). */
  method DefineIn(s: Stores.Store, env: nat, args: seq<Value>, fuel: nat) returns (r: Result<Value>)
    requires Ready(s.Snapshot(), env) && AllOk(args, s.Snapshot())
    modifies s
    ensures Outcome(s.Snapshot(), r) == Define(old(s.Snapshot()), env, args, fuel)
    decreases fuel, 1
  {
    if |args| != 2 {
      return Err(SyntaxError);
    }
    var result: Result<Value>;
    var name: Option<string>;
    if args[0].Pair? {
      name := SymbolName(s.GetFirst(args[0].cell));
      result := LambdaIn(s, env, [s.GetSecond(args[0].cell), args[1]]);
      if result.Err? {
        return result;
      }
      if name.None? {
        return Err(Undefined);
      }
    } else {
      name := SymbolName(args[0]);
      if name.None? {
        return Err(SyntaxError);
      }
      result := EvalIn(s, env, args[1], fuel);
      if result.Err? {
        return result;
      }
    }
    s.Insert(env, name.value, result.value);
    r := result;
  }

  /** `SetSynt::Apply` (scheme/syntax.cpp:138-153). */
  method SetIn(s: Stores.Store, env: nat, args: seq<Value>, fuel: nat) returns (r: Result<Value>)
    requires Ready(s.Snapshot(), env) && AllOk(args, s.Snapshot())
    modifies s
    ensures Outcome(s.Snapshot(), r) == SetBang(old(s.Snapshot()), env, args, fuel)
    decreases fuel, 1
  {
    if |args| != 2 {
      return Err(SyntaxError);
    }
    var name := SymbolName(args[0]);
    if name.None? {
      return Err(SyntaxError);
    }
    var result := EvalIn(s, env, args[1], fuel);
    if result.Err? {
      return result;
    }
    var found := s.Set(env, name.value, result.value);
    if !found {
      return Err(NameError);
    }
    r := result;
  }
}
