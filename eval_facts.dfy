/** How `Eval` treats each kind of object and how `Cell::Eval`
    (parser.cpp:72-102) treats its operator and its arguments, stated for
    every input rather than for known arguments: what each kind of operator
    value leads to, and that the arguments of a function are evaluated left
    to right, each on the store the one before it left. */
module EvalFacts {
  import opened Base
  import opened Objects
  import opened Heaps
  import opened Scopes
  import opened Lists
  import opened Builtins
  import opened Evaluator
  import Printer
  import PrinterFacts

  // ---------------------------------------------------------------------
  // Object::Eval

  // `EvalOfKinds`, `OperatorFirst`, `FunctionIsCalled` and
  // `OtherOperatorEvaluatedAgain` are the definition of `Eval` and
  // `EvalCell` read case by case, one per branch of the source; the lemmas
  // after them are about whole argument lists and need their proofs.

  /** An object that is not a cell is evaluated without touching the store:
      a number to itself, a symbol to its binding (`#t` and `#f` are
      symbols), a function or a syntax is a RuntimeError, and the empty
      value is dereferenced.  A cell is evaluated by `Cell::Eval`, spending
      one unit of fuel (parser.cpp:16-18, 32-34, 48-50, 60-62). */
  lemma EvalOfKinds(h: Heap, env: nat, e: Value, fuel: nat)
    requires Ready(h, env) && ValueOk(e, h)
    ensures !e.Pair? ==> Eval(h, env, e, fuel).h == h
    ensures e.Number? ==> Eval(h, env, e, fuel).r == Ok(e)
    ensures e.Symbol? ==> Eval(h, env, e, fuel).r == Lookup(h, env, e.name)
    ensures e == True ==> Eval(h, env, e, fuel).r == Lookup(h, env, "#t")
    ensures e == False ==> Eval(h, env, e, fuel).r == Lookup(h, env, "#f")
    ensures IsCallable(e) ==> Eval(h, env, e, fuel).r == Err(RuntimeError)
    ensures e == Nil ==> Eval(h, env, e, fuel).r == Err(Undefined)
    ensures e.Pair? && fuel == 0 ==> Eval(h, env, e, fuel) == Outcome(h, Err(OutOfFuel))
    ensures e.Pair? && fuel > 0 ==> Eval(h, env, e, fuel) == EvalCell(h, env, e.cell, fuel - 1)
  {
  }

  // ---------------------------------------------------------------------
  // Cell::Eval: the operator

  /** The operator is evaluated first; an error there is the cell's error,
      and a value that is neither a function nor a syntax is the cell's
      value when the cell has no arguments (parser.cpp:73-79). */
  lemma OperatorFirst(h: Heap, env: nat, c: nat, fuel: nat)
    requires Ready(h, env) && c < |h.cells|
    ensures var o1 := Eval(h, env, h.cells[c].first, fuel);
      o1.r.Err? ==> EvalCell(h, env, c, fuel) == o1
    ensures var o1 := Eval(h, env, h.cells[c].first, fuel);
      o1.r.Ok? && !IsCallable(o1.r.value) && o1.h.cells[c].second == Nil ==> EvalCell(h, env, c, fuel) == o1
  {
  }

  /** A syntax operator is applied to the arguments as they stand in the
      cell, unevaluated, after the operator was evaluated: the elements of
      a proper list, or `ToVector` of any other argument chain
      (parser.cpp:93, 100). */
  lemma SyntaxGetsArgumentsUnevaluated(h: Heap, env: nat, c: nat, n: nat, fuel: nat)
    requires Ready(h, env) && c < |h.cells|
    requires Eval(h, env, h.cells[c].first, fuel).r.Ok? && Eval(h, env, h.cells[c].first, fuel).r.value.Syntax?
    ensures var o1 := Eval(h, env, h.cells[c].first, fuel);
      var args := ToVector(o1.h, o1.h.cells[c].second);
      EvalCell(h, env, c, fuel) ==
        if args.Err? then Outcome(o1.h, Err(args.error)) else ApplySyntax(o1.h, env, o1.r.value.form, args.value, fuel)
    ensures var o1 := Eval(h, env, h.cells[c].first, fuel);
      ProperList(o1.h, o1.h.cells[c].second, n) ==>
        EvalCell(h, env, c, fuel) == ApplySyntax(o1.h, env, o1.r.value.form, Elements(o1.h, o1.h.cells[c].second, n), fuel)
  {
    var o1 := Eval(h, env, h.cells[c].first, fuel);
    if ProperList(o1.h, o1.h.cells[c].second, n) {
      ToVectorOfChain(o1.h, o1.h.cells[c].second, n, Nil);
    }
  }

  /** A function operator is called on the cell after the operator was
      evaluated (parser.cpp:94-98). */
  lemma FunctionIsCalled(h: Heap, env: nat, c: nat, fuel: nat)
    requires Ready(h, env) && c < |h.cells|
    requires Eval(h, env, h.cells[c].first, fuel).r.Ok? && IsFunction(Eval(h, env, h.cells[c].first, fuel).r.value)
    ensures var o1 := Eval(h, env, h.cells[c].first, fuel);
      EvalCell(h, env, c, fuel) == CallFunction(o1.h, env, o1.r.value, c, fuel)
  {
  }

  /** An operator value that is neither a function nor a syntax, in a cell
      with arguments, is evaluated once more; that must give a function,
      which is then called, and anything else (a syntax included) is a
      RuntimeError whose message prints the value; a value that cannot be
      printed (a cyclic one) never gets its error, which is `OutOfFuel`
      (parser.cpp:81-91). */
  lemma OtherOperatorEvaluatedAgain(h: Heap, env: nat, c: nat, fuel: nat)
    requires Ready(h, env) && c < |h.cells|
    requires Eval(h, env, h.cells[c].first, fuel).r.Ok?
    requires !IsCallable(Eval(h, env, h.cells[c].first, fuel).r.value)
    requires Eval(h, env, h.cells[c].first, fuel).h.cells[c].second != Nil
    ensures var o1 := Eval(h, env, h.cells[c].first, fuel);
      var o2 := Eval(o1.h, env, o1.r.value, fuel);
      && (o2.r.Err? ==> EvalCell(h, env, c, fuel) == o2)
      && (o2.r.Ok? && !IsFunction(o2.r.value) ==>
            EvalCell(h, env, c, fuel) ==
              Outcome(o2.h, Err(if Printer.Render(o2.h, o2.r.value).Err? then OutOfFuel else RuntimeError)))
      && (o2.r.Ok? && IsFunction(o2.r.value) ==> EvalCell(h, env, c, fuel) == CallFunction(o2.h, env, o2.r.value, c, fuel))
  {
  }

  /** The error for an operator value that is still no function is a
      RuntimeError for every value that is not a cell, and is `OutOfFuel`
      (the source printing its message forever) only for a value from
      which a walk along `first` and `second` fields comes back to a cell
      it passed (parser.cpp:85-89, printer.cpp:3-10). */
  lemma NoFunctionErrorOnlyOnCycles(h: Heap, env: nat, c: nat, fuel: nat)
    requires Ready(h, env) && c < |h.cells|
    requires Eval(h, env, h.cells[c].first, fuel).r.Ok?
    requires !IsCallable(Eval(h, env, h.cells[c].first, fuel).r.value)
    requires Eval(h, env, h.cells[c].first, fuel).h.cells[c].second != Nil
    requires var o1 := Eval(h, env, h.cells[c].first, fuel);
      var o2 := Eval(o1.h, env, o1.r.value, fuel);
      o2.r.Ok? && !IsFunction(o2.r.value)
    ensures var o1 := Eval(h, env, h.cells[c].first, fuel);
      var o2 := Eval(o1.h, env, o1.r.value, fuel);
      && (!o2.r.value.Pair? ==> EvalCell(h, env, c, fuel) == Outcome(o2.h, Err(RuntimeError)))
      && (EvalCell(h, env, c, fuel).r != Err(RuntimeError) ==>
            EvalCell(h, env, c, fuel) == Outcome(o2.h, Err(OutOfFuel))
            && o2.r.value.Pair? && exists cs, i :: PrinterFacts.ReturnsTo(o2.h, o2.r.value.cell, cs, i))
  {
    var o1 := Eval(h, env, h.cells[c].first, fuel);
    var o2 := Eval(o1.h, env, o1.r.value, fuel);
    OtherOperatorEvaluatedAgain(h, env, c, fuel);
    if Printer.Render(o2.h, o2.r.value).Err? {
      PrinterFacts.RenderFailsOnlyOnCycles(o2.h, o2.r.value);
    }
  }

  // ---------------------------------------------------------------------
  // Cell::Eval: the arguments of a function

  /** The evaluation of the first `i` arguments. */
  function Before(h: Heap, env: nat, args: seq<Value>, i: nat, fuel: nat): (o: Outcomes)
    requires Ready(h, env) && AllOk(args, h) && i <= |args|
    ensures FineAll(h, o)
  {
    EvalArgs(h, env, args[..i], fuel)
  }

  /** Argument `i` evaluates to `v` on the store the first `i` arguments
      left, and leaves the store the first `i + 1` leave. */
  predicate EvaluatesTo(h: Heap, env: nat, args: seq<Value>, i: nat, v: Value, fuel: nat)
    requires Ready(h, env) && AllOk(args, h) && i < |args|
  {
    var p := Before(h, env, args, i, fuel);
    p.r.Ok? && Eval(p.h, env, args[i], fuel) == Outcome(Before(h, env, args, i + 1, fuel).h, Ok(v))
  }

  /** Evaluating one more argument (parser.cpp:95-97). */
  lemma {:induction false} EvalArgsSnoc(h: Heap, env: nat, xs: seq<Value>, a: Value, fuel: nat)
    requires Ready(h, env) && AllOk(xs, h) && ValueOk(a, h)
    ensures var p := EvalArgs(h, env, xs, fuel);
      EvalArgs(h, env, xs + [a], fuel) ==
        if p.r.Err? then p
        else
          var o := Eval(p.h, env, a, fuel);
          if o.r.Err? then Outcomes(o.h, Err(o.r.error)) else Outcomes(o.h, Ok(p.r.value + [o.r.value]))
    decreases |xs|
  {
    var ys := xs + [a];
    if xs == [] {
      assert ys == [a] && ys[1..] == [];
      var o := Eval(h, env, a, fuel);
      if o.r.Ok? {
        assert [o.r.value] + [] == [] + [o.r.value];
      }
    } else {
      assert ys[0] == xs[0] && ys[1..] == xs[1..] + [a];
      var o1 := Eval(h, env, xs[0], fuel);
      if o1.r.Ok? {
        EvalArgsSnoc(o1.h, env, xs[1..], a, fuel);
        var rest := EvalArgs(o1.h, env, xs[1..], fuel);
        if rest.r.Ok? {
          var o := Eval(rest.h, env, a, fuel);
          if o.r.Ok? {
            assert [o1.r.value] + (rest.r.value + [o.r.value]) == ([o1.r.value] + rest.r.value) + [o.r.value];
          }
        }
      }
    }
  }

  lemma BeforeStep(h: Heap, env: nat, args: seq<Value>, i: nat, fuel: nat)
    requires Ready(h, env) && AllOk(args, h) && i < |args|
    ensures var p := Before(h, env, args, i, fuel);
      Before(h, env, args, i + 1, fuel) ==
        if p.r.Err? then p
        else
          var o := Eval(p.h, env, args[i], fuel);
          if o.r.Err? then Outcomes(o.h, Err(o.r.error)) else Outcomes(o.h, Ok(p.r.value + [o.r.value]))
  {
    assert args[..i + 1] == args[..i] + [args[i]];
    EvalArgsSnoc(h, env, args[..i], args[i], fuel);
  }

  lemma {:induction false} ValuesInOrder(h: Heap, env: nat, args: seq<Value>, k: nat, fuel: nat)
    requires Ready(h, env) && AllOk(args, h) && k <= |args| && Before(h, env, args, k, fuel).r.Ok?
    ensures |Before(h, env, args, k, fuel).r.value| == k
    ensures forall i :: 0 <= i < k ==> EvaluatesTo(h, env, args, i, Before(h, env, args, k, fuel).r.value[i], fuel)
    decreases k
  {
    if k > 0 {
      BeforeStep(h, env, args, k - 1, fuel);
      ValuesInOrder(h, env, args, k - 1, fuel);
    }
  }

  lemma {:induction false} FirstFailure(h: Heap, env: nat, args: seq<Value>, k: nat, fuel: nat)
    requires Ready(h, env) && AllOk(args, h) && k <= |args| && Before(h, env, args, k, fuel).r.Err?
    ensures exists i ::
      && 0 <= i < k && Before(h, env, args, i, fuel).r.Ok?
      && var o := Eval(Before(h, env, args, i, fuel).h, env, args[i], fuel);
        o.r.Err? && Before(h, env, args, k, fuel) == Outcomes(o.h, Err(o.r.error))
    decreases k
  {
    assert args[..0] == [];
    if k > 0 {
      BeforeStep(h, env, args, k - 1, fuel);
      if Before(h, env, args, k - 1, fuel).r.Err? {
        FirstFailure(h, env, args, k - 1, fuel);
      }
    }
  }

  /** The arguments of a function are evaluated left to right in the
      calling scope, each on the store the ones before it left: the `i`-th
      value is the value of the `i`-th argument there.  When one fails, the
      first failure is the error, with the store as that evaluation left it
      (parser.cpp:95-97). */
  lemma ArgumentsInOrder(h: Heap, env: nat, args: seq<Value>, fuel: nat)
    requires Ready(h, env) && AllOk(args, h)
    ensures var o := EvalArgs(h, env, args, fuel);
      o.r.Ok? ==> |o.r.value| == |args| && forall i :: 0 <= i < |args| ==> EvaluatesTo(h, env, args, i, o.r.value[i], fuel)
    ensures var o := EvalArgs(h, env, args, fuel);
      o.r.Err? ==> exists i ::
        && 0 <= i < |args| && Before(h, env, args, i, fuel).r.Ok?
        && var e := Eval(Before(h, env, args, i, fuel).h, env, args[i], fuel);
          e.r.Err? && e.h == o.h && e.r.error == o.r.error
  {
    assert args[..|args|] == args;
    if EvalArgs(h, env, args, fuel).r.Ok? {
      ValuesInOrder(h, env, args, |args|, fuel);
    } else {
      FirstFailure(h, env, args, |args|, fuel);
    }
  }

  /** A function called from a cell whose arguments form a proper list
      gets the values of those arguments, evaluated in order as
      `ArgumentsInOrder` states; the store they leave is the one the
      function is applied on (parser.cpp:93-98). */
  lemma CallOnEvaluatedArguments(h: Heap, env: nat, fn: Value, c: nat, n: nat, fuel: nat)
    requires Ready(h, env) && c < |h.cells| && IsFunction(fn) && ValueOk(fn, h)
    requires ProperList(h, h.cells[c].second, n)
    ensures var os := EvalArgs(h, env, Elements(h, h.cells[c].second, n), fuel);
      CallFunction(h, env, fn, c, fuel) ==
        if os.r.Err? then Outcome(os.h, Err(os.r.error)) else Apply(os.h, env, fn, os.r.value, fuel)
  {
    ToVectorOfChain(h, h.cells[c].second, n, Nil);
  }

  // ---------------------------------------------------------------------
  // The body of a closure

  /** The body of a closure is evaluated as the arguments of a call are,
      in order and on the threaded store; its value is the value of the
      last expression, or `last` when no expression is left
      (scheme/functions.cpp:566-571). */
  lemma {:induction false} BodyAsArguments(h: Heap, env: nat, body: seq<Value>, i: nat, last: Value, fuel: nat)
    requires Ready(h, env) && AllOk(body, h) && i <= |body| && ValueOk(last, h)
    ensures var os := EvalArgs(h, env, body[i..], fuel);
      EvalBody(h, env, body, i, last, fuel) ==
        if os.r.Err? then Outcome(os.h, Err(os.r.error))
        else Outcome(os.h, Ok(if i == |body| then last else os.r.value[|body| - i - 1]))
    decreases |body| - i
  {
    if i == |body| {
      assert body[i..] == [];
    } else {
      var rest := body[i..];
      assert rest[0] == body[i] && rest[1..] == body[i + 1..];
      var o1 := Eval(h, env, body[i], fuel);
      if o1.r.Ok? {
        BodyAsArguments(o1.h, env, body, i + 1, o1.r.value, fuel);
      }
    }
  }
}
