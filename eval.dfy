/** Evaluation: `Eval` of each kind of object (parser.cpp), the special
    forms (scheme/syntax.cpp), the builtins that evaluate their arguments
    again (scheme/functions.cpp) and `LambdaClosure::Apply`.  Evaluation
    threads the store: every function takes the store before the step and
    returns it after, with the value or the error raised.

    Evaluation of a user program need not end, so every function takes a
    `fuel` bound, spent by one unit each time a cell is evaluated;
    `OutOfFuel` reports that it ran out.  The functions are mutually
    recursive and decrease (fuel, rank, position in an argument list). */
module Evaluator {
  import opened Base
  import opened Objects
  import opened Heaps
  import opened Scopes
  import opened Lists
  import opened Builtins
  import Printer

  /** The state of the store after evaluating a sequence, and the values. */
  datatype Outcomes = Outcomes(h: Heap, r: Result<seq<Value>>)

  predicate FineAll(h: Heap, o: Outcomes) {
    Wf(o.h) && Grows(h, o.h) && (o.r.Ok? ==> AllOk(o.r.value, o.h))
  }

  /** What evaluation in scope `env` needs of the store. */
  predicate Ready(h: Heap, env: nat) {
    Wf(h) && env < |h.frames|
  }

  // ---------------------------------------------------------------------
  // Object::Eval

  /** `Eval` of every kind of object (parser.cpp:16-18, 32-34, 48-50, 60-62,
      72-102).  `True` and `False` are symbols: they evaluate to the bindings
      of `#t` and `#f`.  The empty value has no `Eval`: the source
      dereferences a null pointer. */
  function Eval(h: Heap, env: nat, e: Value, fuel: nat): (o: Outcome)
    requires Ready(h, env) && ValueOk(e, h)
    ensures Fine(h, o)
    decreases fuel, 0, 0
  {
    match e
    case Nil => Outcome(h, Err(Undefined))
    case Number(_) => Outcome(h, Ok(e))
    case Symbol(name) => Outcome(h, Lookup(h, env, name))
    case True => Outcome(h, Lookup(h, env, "#t"))
    case False => Outcome(h, Lookup(h, env, "#f"))
    case Prim(_) => Outcome(h, Err(RuntimeError))
    case Closure(_) => Outcome(h, Err(RuntimeError))
    case Syntax(_) => Outcome(h, Err(RuntimeError))
    case Pair(c) => if fuel == 0 then Outcome(h, Err(OutOfFuel)) else EvalCell(h, env, c, fuel - 1)
  }

  /** `Cell::Eval` (parser.cpp:72-102).  The operator is evaluated first.  A
      result that is neither a function nor a syntax is returned as it is
      when the cell has no arguments, and otherwise evaluated once more and
      then required to be a function; the error raised otherwise prints the
      value into its message (parser.cpp:86-89), which never finishes for a
      value with no text (a cyclic one), so that case is `OutOfFuel` like
      every other evaluation that does not end.  The argument list is read
      from the cell after the operator has been evaluated, which may have
      changed it. */
  function EvalCell(h: Heap, env: nat, c: nat, fuel: nat): (o: Outcome)
    requires Ready(h, env) && c < |h.cells|
    ensures Fine(h, o)
    decreases fuel, 5, 0
  {
    var o1 := Eval(h, env, h.cells[c].first, fuel);
    if o1.r.Err? then o1
    else
      var tfn := o1.r.value;
      var h1 := o1.h;
      if !IsCallable(tfn) && h1.cells[c].second == Nil then o1
      else if !IsCallable(tfn) then
        var o2 := Eval(h1, env, tfn, fuel);
        if o2.r.Err? then o2
        else if !IsFunction(o2.r.value) then
          Outcome(o2.h, Err(if Printer.Render(o2.h, o2.r.value).Err? then OutOfFuel else RuntimeError))
        else CallFunction(o2.h, env, o2.r.value, c, fuel)
      else if tfn.Syntax? then
        var args := ToVector(h1, h1.cells[c].second);
        if args.Err? then Outcome(h1, Err(args.error))
        else ApplySyntax(h1, env, tfn.form, args.value, fuel)
      else CallFunction(h1, env, tfn, c, fuel)
  }

  /** The function branch of `Cell::Eval` (parser.cpp:93-98): every argument
      is evaluated, left to right, in the calling scope, and the function is
      applied to the results. */
  function CallFunction(h: Heap, env: nat, fn: Value, c: nat, fuel: nat): (o: Outcome)
    requires Ready(h, env) && c < |h.cells| && IsFunction(fn) && ValueOk(fn, h)
    ensures Fine(h, o)
    decreases fuel, 4, 0
  {
    var args := ToVector(h, h.cells[c].second);
    if args.Err? then Outcome(h, Err(args.error))
    else
      var os := EvalArgs(h, env, args.value, fuel);
      if os.r.Err? then Outcome(os.h, Err(os.r.error))
      else Apply(os.h, env, fn, os.r.value, fuel)
  }

  /** The loop `arg = arg->Eval(scope)` over the arguments (parser.cpp:95-97). */
  function EvalArgs(h: Heap, env: nat, args: seq<Value>, fuel: nat): (o: Outcomes)
    requires Ready(h, env) && AllOk(args, h)
    ensures FineAll(h, o)
    ensures o.r.Ok? ==> |o.r.value| == |args|
    decreases fuel, 1, |args|
  {
    if args == [] then Outcomes(h, Ok([]))
    else
      var o1 := Eval(h, env, args[0], fuel);
      if o1.r.Err? then Outcomes(o1.h, Err(o1.r.error))
      else
        var rest := EvalArgs(o1.h, env, args[1..], fuel);
        if rest.r.Err? then rest
        else Outcomes(rest.h, Ok([o1.r.value] + rest.r.value))
  }

  /** `Function::Apply`: a builtin or a closure. */
  function Apply(h: Heap, env: nat, fn: Value, args: seq<Value>, fuel: nat): (o: Outcome)
    requires Ready(h, env) && IsFunction(fn) && ValueOk(fn, h) && AllOk(args, h)
    ensures Fine(h, o)
    decreases fuel, 3, 0
  {
    match fn
    case Prim(op) => ApplyPrim(h, env, op, args, fuel)
    case Closure(k) => ApplyClosure(h, k, args, fuel)
  }

  // ---------------------------------------------------------------------
  // Builtins (scheme/functions.cpp)

  /** The `Apply` of each builtin on its evaluated arguments. */
  function ApplyPrim(h: Heap, env: nat, op: Builtin, args: seq<Value>, fuel: nat): (o: Outcome)
    requires Ready(h, env) && AllOk(args, h)
    ensures Fine(h, o)
    decreases fuel, 2, 0
  {
    if IsPredicate(op) then Outcome(h, Predicate(op, args))
    else if op.ListP? then
      if |args| != 1 then Outcome(h, Err(RuntimeError))
      else
        var b := IsList(h, args[0]);
        if b.Err? then Outcome(h, Err(b.error)) else Outcome(h, Ok(Bool(b.value)))
    else if op.EqualP? || op.IntegerEqualP? then Outcome(h, Err(NotImplemented))
    else if op.Add? then Fold(h, env, op, args, 0, 0, fuel)
    else if op.Mul? then Fold(h, env, op, args, 0, 1, fuel)
    else if op.Sub? then
      if args == [] then Outcome(h, Err(RuntimeError)) else Fold(h, env, op, args, 0, 0, fuel)
    else if op.Div? then
      if args == [] then Outcome(h, Err(RuntimeError)) else Fold(h, env, op, args, 0, 1, fuel)
    else if IsComparison(op) then Compare(h, env, op, args, 0, None, fuel)
    else if op.Min? || op.Max? then
      if args == [] then Outcome(h, Err(RuntimeError)) else Extreme(h, env, op, args, 0, None, fuel)
    else if op.Abs? then
      if |args| != 1 then Outcome(h, Err(RuntimeError))
      else
        var o1 := Eval(h, env, args[0], fuel);
        if o1.r.Err? then o1
        else if !o1.r.value.Number? then Outcome(o1.h, Err(RuntimeError))
        else
          var a := AbsValue(o1.r.value.n);
          if a.Err? then Outcome(o1.h, Err(a.error)) else Outcome(o1.h, Ok(Number(a.value)))
    else ListOp(h, op, args)
  }

  /** The accumulator loop of `+`, `-`, `*` and `/` from argument `i` on.
      Each argument, although already evaluated, is evaluated once more
      (scheme/functions.cpp:128, 150, 172, 194) and must then be a number. */
  function Fold(h: Heap, env: nat, op: Builtin, args: seq<Value>, i: nat, acc: int, fuel: nat): (o: Outcome)
    requires Ready(h, env) && AllOk(args, h) && IsArith(op) && i <= |args|
    ensures Fine(h, o)
    decreases fuel, 1, |args| - i
  {
    if i == |args| then Outcome(h, Ok(Number(acc)))
    else
      var o1 := Eval(h, env, args[i], fuel);
      if o1.r.Err? then o1
      else if !o1.r.value.Number? then Outcome(o1.h, Err(RuntimeError))
      else
        var next := Combine(op, i == 0, acc, o1.r.value.n);
        if next.Err? then Outcome(o1.h, Err(next.error))
        else Fold(o1.h, env, op, args, i + 1, next.value, fuel)
  }

  /** The loop of `=`, `>`, `<`, `>=` and `<=` from argument `i` on: each
      argument is evaluated once more (scheme/functions.cpp:217 and the like)
      and compared with the previous one; the first failed comparison
      answers `#f` without evaluating the rest. */
  function Compare(h: Heap, env: nat, op: Builtin, args: seq<Value>, i: nat, prev: Option<int>, fuel: nat): (o: Outcome)
    requires Ready(h, env) && AllOk(args, h) && IsComparison(op) && i <= |args|
    ensures Fine(h, o)
    decreases fuel, 1, |args| - i
  {
    if i == |args| then Outcome(h, Ok(True))
    else
      var o1 := Eval(h, env, args[i], fuel);
      if o1.r.Err? then o1
      else if !o1.r.value.Number? then Outcome(o1.h, Err(RuntimeError))
      else
        var n := o1.r.value.n;
        if prev.Some? && !Holds(op, prev.value, n) then Outcome(o1.h, Ok(False))
        else Compare(o1.h, env, op, args, i + 1, Some(n), fuel)
  }

  /** The loop of `min` and `max` from argument `i` on, `best` the extreme
      so far; each argument is evaluated once more. */
  function Extreme(h: Heap, env: nat, op: Builtin, args: seq<Value>, i: nat, best: Option<int>, fuel: nat): (o: Outcome)
    requires Ready(h, env) && AllOk(args, h) && (op.Min? || op.Max?) && i <= |args|
    ensures Fine(h, o)
    decreases fuel, 1, |args| - i
  {
    if i == |args| then Outcome(h, Ok(Number(if best.Some? then best.value else 0)))
    else
      var o1 := Eval(h, env, args[i], fuel);
      if o1.r.Err? then o1
      else if !o1.r.value.Number? then Outcome(o1.h, Err(RuntimeError))
      else
        var n := o1.r.value.n;
        var better := best.None? || (if op.Min? then best.value > n else best.value < n);
        Extreme(o1.h, env, op, args, i + 1, if better then Some(n) else best, fuel)
  }

  // ---------------------------------------------------------------------
  // Closures (scheme/functions.cpp:548-573)

  /** The loop binding each parameter to its argument, in order, in the
      closure's frame. */
  function BindParams(h: Heap, f: nat, params: seq<string>, args: seq<Value>): (r: Heap)
    requires Wf(h) && f < |h.frames| && AllOk(args, h) && |params| == |args|
    ensures Wf(r) && Grows(h, r) && Grows(r, h)
    ensures r.cells == h.cells && r.closures == h.closures
    decreases |params|
  {
    if params == [] then h
    else BindParams(Insert(h, f, params[0], args[0]), f, params[1..], args[1..])
  }

  /** `LambdaClosure::Apply`.  The closure binds its parameters in the one
      frame made when it was built, so every call reuses that frame and
      sees what earlier calls left in it (scheme/functions.cpp:553,
      563-564).  The caller's scope plays no part. */
  function ApplyClosure(h: Heap, k: nat, args: seq<Value>, fuel: nat): (o: Outcome)
    requires Wf(h) && k < |h.closures| && AllOk(args, h)
    ensures Fine(h, o)
    decreases fuel, 2, 0
  {
    var clo := h.closures[k];
    if |args| != |clo.params| then Outcome(h, Err(RuntimeError))
    else
      var h1 := BindParams(h, clo.frame, clo.params, args);
      EvalBody(h1, clo.frame, clo.body, 0, Nil, fuel)
  }

  /** The loop over the body from expression `i` on; `last` is the value of
      the expression before. */
  function EvalBody(h: Heap, env: nat, body: seq<Value>, i: nat, last: Value, fuel: nat): (o: Outcome)
    requires Ready(h, env) && AllOk(body, h) && i <= |body| && ValueOk(last, h)
    ensures Fine(h, o)
    decreases fuel, 1, |body| - i
  {
    if i == |body| then Outcome(h, Ok(last))
    else
      var o1 := Eval(h, env, body[i], fuel);
      if o1.r.Err? then o1
      else EvalBody(o1.h, env, body, i + 1, o1.r.value, fuel)
  }

  // ---------------------------------------------------------------------
  // Special forms (scheme/syntax.cpp)

  /** The `Apply` of each special form on its unevaluated arguments. */
  function ApplySyntax(h: Heap, env: nat, form: Form, args: seq<Value>, fuel: nat): (o: Outcome)
    requires Ready(h, env) && AllOk(args, h)
    ensures Fine(h, o)
    decreases fuel, 2, 0
  {
    match form
    case IfForm =>
      if |args| < 2 || |args| > 3 then Outcome(h, Err(SyntaxError))
      else
        var o1 := Eval(h, env, args[0], fuel);
        if o1.r.Err? then o1
        // the empty value counts as false here (scheme/syntax.cpp:19)
        else if o1.r.value != Nil && !IsFalse(o1.r.value) then Eval(o1.h, env, args[1], fuel)
        else if |args| == 3 && args[2] != Nil then Eval(o1.h, env, args[2], fuel)
        else Outcome(o1.h, Ok(Nil))
    case QuoteForm =>
      // a wrong count is a RuntimeError here, not a SyntaxError
      // (scheme/syntax.cpp:32)
      if |args| != 1 then Outcome(h, Err(RuntimeError)) else Outcome(h, Ok(args[0]))
    case LambdaForm => MakeLambda(h, env, args)
    case AndForm => AndFrom(h, env, args, 0, fuel)
    case OrForm => OrFrom(h, env, args, 0, fuel)
    case DefineForm => Define(h, env, args, fuel)
    case SetForm => SetBang(h, env, args, fuel)
    case EvalForm =>
      if |args| != 1 then Outcome(h, Err(SyntaxError))
      else
        var o1 := Eval(h, env, args[0], fuel);
        if o1.r.Err? then o1 else Eval(o1.h, env, o1.r.value, fuel)
  }

  /** The loop of `AndSynt` from argument `i` on.  The first false result
      answers `#f`; an empty result is dereferenced (scheme/syntax.cpp:78);
      after the loop the last argument is evaluated a second time
      (scheme/syntax.cpp:86). */
  function AndFrom(h: Heap, env: nat, args: seq<Value>, i: nat, fuel: nat): (o: Outcome)
    requires Ready(h, env) && AllOk(args, h) && i <= |args|
    ensures Fine(h, o)
    decreases fuel, 1, |args| - i
  {
    if i == |args| then
      if args == [] then Outcome(h, Ok(True)) else Eval(h, env, args[|args| - 1], fuel)
    else
      var o1 := Eval(h, env, args[i], fuel);
      if o1.r.Err? then o1
      else if o1.r.value == Nil then Outcome(o1.h, Err(Undefined))
      else if IsFalse(o1.r.value) then Outcome(o1.h, Ok(False))
      else AndFrom(o1.h, env, args, i + 1, fuel)
  }

  /** The loop of `OrSynt` from argument `i` on.  The first result that is
      not false is the answer; an empty result is dereferenced
      (scheme/syntax.cpp:95); after the loop the last argument is evaluated a
      second time (scheme/syntax.cpp:103). */
  function OrFrom(h: Heap, env: nat, args: seq<Value>, i: nat, fuel: nat): (o: Outcome)
    requires Ready(h, env) && AllOk(args, h) && i <= |args|
    ensures Fine(h, o)
    decreases fuel, 1, |args| - i
  {
    if i == |args| then
      if args == [] then Outcome(h, Ok(False)) else Eval(h, env, args[|args| - 1], fuel)
    else
      var o1 := Eval(h, env, args[i], fuel);
      if o1.r.Err? then o1
      else if o1.r.value == Nil then Outcome(o1.h, Err(Undefined))
      else if !IsFalse(o1.r.value) then o1
      else OrFrom(o1.h, env, args, i + 1, fuel)
  }

  /** `DefineSynt`: `(define name expr)` binds the value of `expr` in the
      current frame; `(define (name . params) body)` binds a closure built as
      `lambda` builds it.  A head that is not a symbol is dereferenced as one
      (scheme/syntax.cpp:134), after the closure is built. */
  function Define(h: Heap, env: nat, args: seq<Value>, fuel: nat): (o: Outcome)
    requires Ready(h, env) && AllOk(args, h)
    ensures Fine(h, o)
    decreases fuel, 1, 0
  {
    if |args| != 2 then Outcome(h, Err(SyntaxError))
    else if args[0].Pair? then
      var cell := h.cells[args[0].cell];
      var o1 := MakeLambda(h, env, [cell.second, args[1]]);
      var name := SymbolName(cell.first);
      if o1.r.Err? then o1
      else if name.None? then Outcome(o1.h, Err(Undefined))
      else Outcome(Insert(o1.h, env, name.value, o1.r.value), o1.r)
    else
      var name := SymbolName(args[0]);
      if name.None? then Outcome(h, Err(SyntaxError))
      else
        var o1 := Eval(h, env, args[1], fuel);
        if o1.r.Err? then o1
        else Outcome(Insert(o1.h, env, name.value, o1.r.value), o1.r)
  }

  /** `SetSynt`: evaluates the value, then `Scope::Set`s the symbol. */
  function SetBang(h: Heap, env: nat, args: seq<Value>, fuel: nat): (o: Outcome)
    requires Ready(h, env) && AllOk(args, h)
    ensures Fine(h, o)
    decreases fuel, 1, 0
  {
    if |args| != 2 then Outcome(h, Err(SyntaxError))
    else
      var name := SymbolName(args[0]);
      if name.None? then Outcome(h, Err(SyntaxError))
      else
        var o1 := Eval(h, env, args[1], fuel);
        if o1.r.Err? then o1
        else
          var updated := SetVar(o1.h, env, name.value, o1.r.value);
          if updated.Err? then Outcome(o1.h, Err(updated.error)) else Outcome(updated.value, o1.r)
  }

  // ---------------------------------------------------------------------
  // lambda (scheme/syntax.cpp:38-71)

  /** The parameter names of `lambda`: each element of `ToVector` of the
      first argument in turn.  The source tests the element pointer, not the
      result of the cast to `Symbol` (scheme/syntax.cpp:50-54): an empty
      element is a SyntaxError, while an element that is not a symbol is
      dereferenced as one (undefined behaviour). */
  function ParamNames(vars: seq<Value>): (r: Result<seq<string>>)
    ensures r.Ok? ==> |r.value| == |vars|
    ensures r.Ok? ==> forall i :: 0 <= i < |vars| ==> SymbolName(vars[i]) == Some(r.value[i])
    ensures r.Err? ==> r.error == SyntaxError || r.error == Undefined
  {
    if vars == [] then Ok([])
    else if vars[0] == Nil then Err(SyntaxError)
    else if SymbolName(vars[0]).None? then Err(Undefined)
    else
      var rest := ParamNames(vars[1..]);
      if rest.Err? then rest else Ok([SymbolName(vars[0]).value] + rest.value)
  }

  /** `LambdaSynt`: the closure over the current scope, with a fresh frame
      under it, the parameters of the first argument and the rest as body. */
  function MakeLambda(h: Heap, env: nat, args: seq<Value>): (o: Outcome)
    requires Ready(h, env) && AllOk(args, h)
    ensures Fine(h, o)
    ensures o.r.Ok? ==> o.r.value == Closure(|h.closures|)
  {
    if args == [] then Outcome(h, Err(SyntaxError))
    else
      var vars := if args[0] == Nil then Ok([]) else ToVector(h, args[0]);
      if vars.Err? then Outcome(h, Err(vars.error))
      else
        var names := ParamNames(vars.value);
        if names.Err? then Outcome(h, Err(names.error))
        else if |args| < 2 then Outcome(h, Err(SyntaxError))
        else
          var h1 := NewFrame(h, Some(env));
          var h2 := NewClosure(h1, names.value, args[1..], |h.frames|);
          Outcome(h2, Ok(Closure(|h.closures|)))
  }
}
