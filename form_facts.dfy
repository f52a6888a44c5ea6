/** What the special forms (scheme/syntax.cpp), closure calls
    (scheme/functions.cpp:548-573) and `Scheme::Eval` (scheme.cpp:70-83) do:
    for any arguments, in terms of what their evaluation gives, and, where
    that reads more plainly, for arguments whose evaluation is known:
    numbers, and `#t` and `#f` where those names keep their global
    meaning. */
module FormFacts {
  import opened Base
  import opened Objects
  import opened Heaps
  import opened Scopes
  import opened Lists
  import opened Builtins
  import opened Evaluator
  import opened ListFacts
  import EvalFacts
  import Interpreter

  /** `v` evaluates to itself in scope `env` and leaves the store alone. */
  predicate SelfEvaluating(h: Heap, env: nat, v: Value)
    requires Ready(h, env)
  {
    v.Number?
    || (v == True && Lookup(h, env, "#t") == Ok(True))
    || (v == False && Lookup(h, env, "#f") == Ok(False))
  }

  predicate AllSelfEvaluating(h: Heap, env: nat, args: seq<Value>)
    requires Ready(h, env)
  {
    forall i :: 0 <= i < |args| ==> SelfEvaluating(h, env, args[i])
  }

  lemma EvalSelf(h: Heap, env: nat, v: Value, fuel: nat)
    requires Ready(h, env) && SelfEvaluating(h, env, v)
    ensures ValueOk(v, h) && Eval(h, env, v, fuel) == Outcome(h, Ok(v))
  {
  }

  // ---------------------------------------------------------------------
  // if

  /** `if` takes two or three arguments, else SyntaxError.  The condition
      is evaluated first, and after it only the chosen branch, on the store
      the condition left: the second argument unless the condition's value
      is `#f` or the empty value, else the third, or the empty value when
      there is no third; an error in the condition is the answer
      (scheme/syntax.cpp:3-26).  With a condition that evaluates to itself
      the store the branch sees is the one `if` was given.  The general
      clause is the `if` case of `ApplySyntax` read as a case split. */
  lemma IfChoosesBranch(h: Heap, env: nat, args: seq<Value>, fuel: nat)
    requires Ready(h, env) && AllOk(args, h)
    ensures |args| < 2 || |args| > 3 ==> ApplySyntax(h, env, IfForm, args, fuel) == Outcome(h, Err(SyntaxError))
    ensures 2 <= |args| <= 3 ==>
      var o1 := Eval(h, env, args[0], fuel);
      ApplySyntax(h, env, IfForm, args, fuel) ==
        if o1.r.Err? then o1
        else if o1.r.value != Nil && !IsFalse(o1.r.value) then Eval(o1.h, env, args[1], fuel)
        else if |args| == 3 && args[2] != Nil then Eval(o1.h, env, args[2], fuel)
        else Outcome(o1.h, Ok(Nil))
    ensures 2 <= |args| <= 3 && SelfEvaluating(h, env, args[0]) ==>
      ApplySyntax(h, env, IfForm, args, fuel) ==
        if !IsFalse(args[0]) then Eval(h, env, args[1], fuel)
        else if |args| == 3 && args[2] != Nil then Eval(h, env, args[2], fuel)
        else Outcome(h, Ok(Nil))
  {
  }

  /** A condition whose value is the empty value (the value of `(if #f #f)`)
      counts as false (scheme/syntax.cpp:19). */
  lemma IfEmptyIsFalse(h: Heap, env: nat, args: seq<Value>, fuel: nat)
    requires Ready(h, env) && AllOk(args, h) && |args| == 3 && args[2] != Nil
    requires Eval(h, env, args[0], fuel).r == Ok(Nil)
    ensures ApplySyntax(h, env, IfForm, args, fuel) == Eval(Eval(h, env, args[0], fuel).h, env, args[2], fuel)
  {
  }

  // ---------------------------------------------------------------------
  // and, or

  lemma {:induction false} AndFromConstants(h: Heap, env: nat, args: seq<Value>, i: nat, fuel: nat)
    requires Ready(h, env) && AllOk(args, h) && AllSelfEvaluating(h, env, args) && i <= |args|
    ensures AndFrom(h, env, args, i, fuel) ==
      Outcome(h, Ok(if exists j :: i <= j < |args| && IsFalse(args[j]) then False
                    else if args == [] then True else args[|args| - 1]))
    decreases |args| - i
  {
    if i < |args| {
      EvalSelf(h, env, args[i], fuel);
      if !IsFalse(args[i]) {
        AndFromConstants(h, env, args, i + 1, fuel);
        assert (exists j :: i <= j < |args| && IsFalse(args[j])) <==> (exists j :: i + 1 <= j < |args| && IsFalse(args[j]));
      }
    } else if args != [] {
      EvalSelf(h, env, args[|args| - 1], fuel);
    }
  }

  /** `and` of arguments that evaluate to themselves is `#f` if one of them
      is `#f`, else the last of them, or `#t` when there are none
      (scheme/syntax.cpp:73-88). */
  lemma AndOfConstants(h: Heap, env: nat, args: seq<Value>, fuel: nat)
    requires Ready(h, env) && AllOk(args, h) && AllSelfEvaluating(h, env, args)
    ensures ApplySyntax(h, env, AndForm, args, fuel) ==
      Outcome(h, Ok(if exists j :: 0 <= j < |args| && IsFalse(args[j]) then False
                    else if args == [] then True else args[|args| - 1]))
  {
    AndFromConstants(h, env, args, 0, fuel);
  }

  lemma {:induction false} OrFromConstants(h: Heap, env: nat, args: seq<Value>, i: nat, fuel: nat)
    requires Ready(h, env) && AllOk(args, h) && AllSelfEvaluating(h, env, args) && i <= |args|
    requires forall j :: 0 <= j < i ==> IsFalse(args[j])
    ensures var o := OrFrom(h, env, args, i, fuel);
      && o.h == h
      && ((forall j :: i <= j < |args| ==> IsFalse(args[j])) ==> o.r == Ok(False))
      && forall k :: i <= k < |args| && !IsFalse(args[k]) && (forall j :: i <= j < k ==> IsFalse(args[j])) ==> o.r == Ok(args[k])
    decreases |args| - i
  {
    if i < |args| {
      EvalSelf(h, env, args[i], fuel);
      if IsFalse(args[i]) {
        OrFromConstants(h, env, args, i + 1, fuel);
      }
    } else if args != [] {
      EvalSelf(h, env, args[|args| - 1], fuel);
    }
  }

  /** `or` of arguments that evaluate to themselves is the first of them that
      is not `#f`, or `#f` when there is none (scheme/syntax.cpp:90-105). */
  lemma OrOfConstants(h: Heap, env: nat, args: seq<Value>, fuel: nat)
    requires Ready(h, env) && AllOk(args, h) && AllSelfEvaluating(h, env, args)
    ensures var o := ApplySyntax(h, env, OrForm, args, fuel);
      && o.h == h
      && ((forall j :: 0 <= j < |args| ==> IsFalse(args[j])) ==> o.r == Ok(False))
      && forall k :: 0 <= k < |args| && !IsFalse(args[k]) && (forall j :: 0 <= j < k ==> IsFalse(args[j])) ==> o.r == Ok(args[k])
  {
    OrFromConstants(h, env, args, 0, fuel);
  }

  // ---------------------------------------------------------------------
  // quote, define, set!

  /** `quote` gives its one argument unevaluated; any other count is a
      RuntimeError (scheme/syntax.cpp:28-36). */
  lemma QuoteGivesArgument(h: Heap, env: nat, args: seq<Value>, fuel: nat)
    requires Ready(h, env) && AllOk(args, h)
    ensures ApplySyntax(h, env, QuoteForm, args, fuel) ==
      Outcome(h, if |args| == 1 then Ok(args[0]) else Err(RuntimeError))
  {
  }

  /** `(define name e)` evaluates `e` and binds `name` to its value in the
      current scope, where it then looks up to that value (unless the value
      is the empty value, which looks unbound), leaves every other scope as
      the evaluation of `e` left it and answers that value; an error in `e`
      is the answer and binds nothing.  A wrong count, or a head that is not
      a symbol or a list, is a SyntaxError (scheme/syntax.cpp:107-136). */
  lemma DefineBindsInCurrentScope(h: Heap, env: nat, name: string, e: Value, fuel: nat)
    requires Ready(h, env) && ValueOk(e, h)
    ensures var o1 := Eval(h, env, e, fuel);
      var o := ApplySyntax(h, env, DefineForm, [Symbol(name), e], fuel);
      && (o1.r.Err? ==> o == o1)
      && (o1.r.Ok? ==>
            && o == Outcome(Insert(o1.h, env, name, o1.r.value), o1.r)
            && (o1.r.value != Nil ==> Lookup(o.h, env, name) == o1.r)
            && forall g :: 0 <= g < |o1.h.frames| && g != env ==> o.h.frames[g] == o1.h.frames[g])
    ensures SelfEvaluating(h, env, e) ==>
      ApplySyntax(h, env, DefineForm, [Symbol(name), e], fuel) == Outcome(Insert(h, env, name, e), Ok(e))
    ensures ApplySyntax(h, env, DefineForm, [Symbol(name)], fuel) == Outcome(h, Err(SyntaxError))
    ensures ApplySyntax(h, env, DefineForm, [Number(1), e], fuel) == Outcome(h, Err(SyntaxError))
  {
    var o1 := Eval(h, env, e, fuel);
    assert ApplySyntax(h, env, DefineForm, [Symbol(name), e], fuel) == Define(h, env, [Symbol(name), e], fuel);
    if o1.r.Ok? && o1.r.value != Nil {
      InsertShadows(o1.h, env, name, o1.r.value);
    }
  }

  /** `(define (name . params) body)` binds `name` in the current scope to
      the closure `(lambda params body)` builds (scheme/syntax.cpp:113-130). */
  lemma DefineProcedureBindsClosure(h: Heap, env: nat, c: nat, name: string, body: Value, fuel: nat)
    requires Ready(h, env) && c < |h.cells| && ValueOk(body, h) && h.cells[c].first == Symbol(name)
    requires MakeLambda(h, env, [h.cells[c].second, body]).r.Ok?
    ensures var o := ApplySyntax(h, env, DefineForm, [Pair(c), body], fuel);
      var m := MakeLambda(h, env, [h.cells[c].second, body]);
      && o == Outcome(Insert(m.h, env, name, Closure(|h.closures|)), Ok(Closure(|h.closures|)))
      && Lookup(o.h, env, name) == Ok(Closure(|h.closures|))
  {
    var m := MakeLambda(h, env, [h.cells[c].second, body]);
    assert ApplySyntax(h, env, DefineForm, [Pair(c), body], fuel) == Define(h, env, [Pair(c), body], fuel);
    assert SymbolName(h.cells[c].first) == Some(name);
    InsertShadows(m.h, env, name, Closure(|h.closures|));
  }

  /** `(set! name e)` evaluates `e`, then changes the nearest binding of
      `name`, after which `name` looks up to the value of `e` (unless that
      is the empty value); when `name` is unbound in the store `e` left it
      is a NameError with that store, and an error in `e` is the answer
      (scheme/syntax.cpp:138-153, scope.cpp:41-59). */
  lemma SetBangUpdatesBinding(h: Heap, env: nat, name: string, e: Value, fuel: nat)
    requires Ready(h, env) && ValueOk(e, h)
    ensures var o1 := Eval(h, env, e, fuel);
      var o := ApplySyntax(h, env, SetForm, [Symbol(name), e], fuel);
      && (o1.r.Err? ==> o == o1)
      && (o1.r.Ok? && Lookup(o1.h, env, name).Err? ==> o == Outcome(o1.h, Err(NameError)))
      && (o1.r.Ok? && Lookup(o1.h, env, name).Ok? ==>
            && SetVar(o1.h, env, name, o1.r.value).Ok?
            && o == Outcome(SetVar(o1.h, env, name, o1.r.value).value, o1.r)
            && (o1.r.value != Nil ==> Lookup(o.h, env, name) == o1.r))
    ensures SelfEvaluating(h, env, e) ==>
      var o := ApplySyntax(h, env, SetForm, [Symbol(name), e], fuel);
      && (Lookup(h, env, name).Err? ==> o == Outcome(h, Err(NameError)))
      && (Lookup(h, env, name).Ok? ==> SetVar(h, env, name, e).Ok? && o == Outcome(SetVar(h, env, name, e).value, Ok(e)))
  {
    var o1 := Eval(h, env, e, fuel);
    assert ApplySyntax(h, env, SetForm, [Symbol(name), e], fuel) == SetBang(h, env, [Symbol(name), e], fuel);
    if o1.r.Ok? {
      SetFailsIffUnbound(o1.h, env, name, o1.r.value);
      if SetVar(o1.h, env, name, o1.r.value).Ok? && o1.r.value != Nil {
        LookupAfterSet(o1.h, env, name, o1.r.value);
      }
    }
  }

  // ---------------------------------------------------------------------
  // lambda

  lemma {:induction false} ParamNamesOfSymbols(vars: seq<Value>)
    requires forall i :: 0 <= i < |vars| ==> vars[i].Symbol?
    ensures ParamNames(vars).Ok?
    ensures forall i :: 0 <= i < |vars| ==> ParamNames(vars).value[i] == vars[i].name
    decreases |vars|
  {
    if vars != [] {
      ParamNamesOfSymbols(vars[1..]);
    }
  }

  /** `(lambda params body...)` with a proper list of symbols as `params`
      and at least one body expression makes a new closure: its parameters
      are the names of `params` in order, its body the other arguments, and
      its frame a fresh empty scope under the current one.  No body, or no
      argument at all, is a SyntaxError (scheme/syntax.cpp:38-71). */
  lemma LambdaBuildsClosure(h: Heap, env: nat, params: Value, n: nat, body: seq<Value>)
    requires Ready(h, env) && ValueOk(params, h) && AllOk(body, h) && ProperList(h, params, n)
    requires forall i :: 0 <= i < n ==> Elements(h, params, n)[i].Symbol?
    requires body != []
    ensures var o := MakeLambda(h, env, [params] + body);
      && o.r == Ok(Closure(|h.closures|))
      && o.h.cells == h.cells
      && o.h.frames == h.frames + [Frame(map[], Some(env))]
      && |o.h.closures| == |h.closures| + 1 && o.h.closures[..|h.closures|] == h.closures
      && o.h.closures[|h.closures|].body == body
      && o.h.closures[|h.closures|].frame == |h.frames|
      && |o.h.closures[|h.closures|].params| == n
      && forall i :: 0 <= i < n ==> Symbol(o.h.closures[|h.closures|].params[i]) == Elements(h, params, n)[i]
    ensures MakeLambda(h, env, [params]) == Outcome(h, Err(SyntaxError))
    ensures MakeLambda(h, env, []) == Outcome(h, Err(SyntaxError))
  {
    var xs := Elements(h, params, n);
    var args := [params] + body;
    assert args[1..] == body;
    ToVectorOfChain(h, params, n, Nil);
    if params == Nil {
      assert n == 0 && xs == [];
    }
    ParamNamesOfSymbols(xs);
    var h1 := NewFrame(h, Some(env));
    assert h1.frames == h.frames + [Frame(map[], Some(env))];
  }

  // ---------------------------------------------------------------------
  // Closure calls

  /** The argument the last parameter named `name` is given, if any: the
      binding loop inserts in order, so a later one wins. */
  function ParamValue(params: seq<string>, args: seq<Value>, name: string): (r: Option<Value>)
    requires |params| == |args|
    ensures r.Some? <==> name in params
    ensures r.Some? ==> exists i :: 0 <= i < |params| && params[i] == name && args[i] == r.value
    decreases |params|
  {
    if params == [] then None
    else
      var rest := ParamValue(params[1..], args[1..], name);
      if rest.Some? then
        var i :| 0 <= i < |params| - 1 && params[1..][i] == name && args[1..][i] == rest.value;
        assert params[i + 1] == name && args[i + 1] == rest.value;
        rest
      else if params[0] == name then Some(args[0])
      else
        assert params == [params[0]] + params[1..];
        None
  }

  /** The binding loop of `LambdaClosure::Apply` changes only the closure's
      frame, binding each parameter to its argument there
      (scheme/functions.cpp:563-565). */
  lemma {:induction false} BindParamsBinds(h: Heap, f: nat, params: seq<string>, args: seq<Value>, name: string)
    requires Wf(h) && f < |h.frames| && AllOk(args, h) && |params| == |args|
    ensures var r := BindParams(h, f, params, args);
      && |r.frames| == |h.frames|
      && r.frames[f].parent == h.frames[f].parent
      && LookupHere(r, f, name) == (if name in params then ParamValue(params, args, name).value else LookupHere(h, f, name))
      && forall g :: 0 <= g < |h.frames| && g != f ==> r.frames[g] == h.frames[g]
    decreases |params|
  {
    if params != [] {
      var h1 := Insert(h, f, params[0], args[0]);
      BindParamsBinds(h1, f, params[1..], args[1..], name);
      assert name in params <==> name == params[0] || name in params[1..];
    }
  }

  lemma {:induction false} EvalBodyOfNumbers(h: Heap, env: nat, body: seq<Value>, i: nat, last: Value, fuel: nat)
    requires Ready(h, env) && AllOk(body, h) && i < |body| && ValueOk(last, h)
    requires forall j :: 0 <= j < |body| ==> body[j].Number?
    ensures EvalBody(h, env, body, i, last, fuel) == Outcome(h, Ok(body[|body| - 1]))
    decreases |body| - i
  {
    if i + 1 < |body| {
      EvalBodyOfNumbers(h, env, body, i + 1, body[i], fuel);
    }
  }

  /** A call binds the parameters in the one frame the closure was made
      with, rather than in a fresh frame per call: the binding adds no
      frame, changes no other frame, cell or closure, and leaves each
      parameter bound to its argument there, where the body, a later call
      of the same closure, and a closure made during this one see it.  The
      body is then evaluated in that frame as arguments are, in order on
      the threaded store (`EvalFacts.ArgumentsInOrder`); the call's value is
      the value of the last expression, the empty value for an empty body,
      and the first error otherwise (scheme/functions.cpp:553, 563-571). */
  lemma ClosureCallReusesFrame(h: Heap, k: nat, args: seq<Value>, fuel: nat)
    requires Wf(h) && k < |h.closures| && AllOk(args, h) && |args| == |h.closures[k].params|
    ensures var clo := h.closures[k];
      var h1 := BindParams(h, clo.frame, clo.params, args);
      var os := EvalArgs(h1, clo.frame, clo.body, fuel);
      && ApplyClosure(h, k, args, fuel) ==
           (if os.r.Err? then Outcome(os.h, Err(os.r.error))
            else Outcome(os.h, Ok(if clo.body == [] then Nil else os.r.value[|clo.body| - 1])))
      && |h1.frames| == |h.frames| && h1.cells == h.cells && h1.closures == h.closures
      && (forall g :: 0 <= g < |h.frames| && g != clo.frame ==> h1.frames[g] == h.frames[g])
      && forall name :: LookupHere(h1, clo.frame, name) ==
           if name in clo.params then ParamValue(clo.params, args, name).value else LookupHere(h, clo.frame, name)
  {
    var clo := h.closures[k];
    var h1 := BindParams(h, clo.frame, clo.params, args);
    EvalFacts.BodyAsArguments(h1, clo.frame, clo.body, 0, Nil, fuel);
    assert clo.body[0..] == clo.body;
    forall name
      ensures LookupHere(h1, clo.frame, name) ==
        if name in clo.params then ParamValue(clo.params, args, name).value else LookupHere(h, clo.frame, name)
    {
      BindParamsBinds(h, clo.frame, clo.params, args, name);
    }
    BindParamsBinds(h, clo.frame, clo.params, args, "");
  }

  /** For a body of numbers the call's value is the last of them, and the
      store is the one the binding left. */
  lemma ClosureCallOfNumbers(h: Heap, k: nat, args: seq<Value>, fuel: nat)
    requires Wf(h) && k < |h.closures| && AllOk(args, h) && |args| == |h.closures[k].params|
    requires h.closures[k].body != [] && forall j :: 0 <= j < |h.closures[k].body| ==> h.closures[k].body[j].Number?
    ensures var clo := h.closures[k];
      ApplyClosure(h, k, args, fuel) == Outcome(BindParams(h, clo.frame, clo.params, args), Ok(clo.body[|clo.body| - 1]))
  {
    var clo := h.closures[k];
    var h1 := BindParams(h, clo.frame, clo.params, args);
    EvalBodyOfNumbers(h1, clo.frame, clo.body, 0, Nil, fuel);
  }

  /** A call with the wrong number of arguments is a RuntimeError and binds
      nothing (scheme/functions.cpp:558-560). */
  lemma ClosureArity(h: Heap, k: nat, args: seq<Value>, fuel: nat)
    requires Wf(h) && k < |h.closures| && AllOk(args, h) && |args| != |h.closures[k].params|
    ensures ApplyClosure(h, k, args, fuel) == Outcome(h, Err(RuntimeError))
  {
  }

  // ---------------------------------------------------------------------
  // eval

  /** `eval` takes one argument, else SyntaxError; it evaluates the
      argument and then evaluates the value once more, on the store the
      first evaluation left (scheme/syntax.cpp:155-164). */
  lemma EvalEvaluatesTwice(h: Heap, env: nat, args: seq<Value>, fuel: nat)
    requires Ready(h, env) && AllOk(args, h)
    ensures |args| != 1 ==> ApplySyntax(h, env, EvalForm, args, fuel) == Outcome(h, Err(SyntaxError))
    ensures |args| == 1 ==>
      var o1 := Eval(h, env, args[0], fuel);
      ApplySyntax(h, env, EvalForm, args, fuel) == if o1.r.Err? then o1 else Eval(o1.h, env, o1.r.value, fuel)
  {
  }

  /** The call of `+` on the cell of `(+ 2 3)`. */
  lemma AddTwoThree(h: Heap, env: nat, c: nat, d: nat, e: nat, fuel: nat)
    requires Ready(h, env) && c < |h.cells| && d < |h.cells| && e < |h.cells|
    requires h.cells[c] == CellRec(Symbol("+"), Pair(d))
    requires h.cells[d] == CellRec(Number(2), Pair(e))
    requires h.cells[e] == CellRec(Number(3), Nil)
    ensures CallFunction(h, env, Prim(Add), c, fuel) == Outcome(h, Ok(Number(5)))
  {
    assert ChainTo(h, Pair(d), 2, Nil) by {
      assert Drop(h, Pair(d), 2) == Drop(h, Pair(e), 1) == Drop(h, Nil, 0);
    }
    ToVectorOfChain(h, Pair(d), 2, Nil);
    assert Elements(h, Pair(d), 2) == [Number(2), Number(3)] by {
      assert Elements(h, Pair(d), 2) == [Number(2)] + Elements(h, Pair(e), 1);
      assert Elements(h, Pair(e), 1) == [Number(3)] + Elements(h, Nil, 0);
    }
    var args := [Number(2), Number(3)];
    assert EvalArgs(h, env, args, fuel) == Outcomes(h, Ok(args)) by {
      assert args[1..] == [Number(3)] && [Number(3)][1..] == [];
      assert EvalArgs(h, env, [], fuel) == Outcomes(h, Ok([]));
      assert EvalArgs(h, env, [Number(3)], fuel) == Outcomes(h, Ok([Number(3)]));
    }
    assert Fold(h, env, Add, args, 0, 0, fuel) == Fold(h, env, Add, args, 1, 2, fuel);
    assert Fold(h, env, Add, args, 1, 2, fuel) == Fold(h, env, Add, args, 2, 5, fuel);
    assert ApplyPrim(h, env, Add, args, fuel) == Outcome(h, Ok(Number(5)));
  }

  /** `(eval x)` with `x` bound to the list `(+ 2 3)` gives 5: the argument
      is evaluated, and its value evaluated once more
      (scheme/syntax.cpp:155-164, test_extra_credit_eval.cpp:3-6). */
  lemma EvalOfQuotedSum(h: Heap, env: nat, c: nat, d: nat, e: nat, fuel: nat)
    requires Ready(h, env) && c < |h.cells| && d < |h.cells| && e < |h.cells|
    requires h.cells[c] == CellRec(Symbol("+"), Pair(d))
    requires h.cells[d] == CellRec(Number(2), Pair(e))
    requires h.cells[e] == CellRec(Number(3), Nil)
    requires Lookup(h, env, "x") == Ok(Pair(c)) && Lookup(h, env, "+") == Ok(Prim(Add))
    requires fuel > 0
    ensures ApplySyntax(h, env, EvalForm, [Symbol("x")], fuel) == Outcome(h, Ok(Number(5)))
  {
    AddTwoThree(h, env, c, d, e, fuel - 1);
    assert Eval(h, env, Symbol("+"), fuel - 1) == Outcome(h, Ok(Prim(Add)));
    assert EvalCell(h, env, c, fuel - 1) == CallFunction(h, env, Prim(Add), c, fuel - 1);
    assert Eval(h, env, Pair(c), fuel) == EvalCell(h, env, c, fuel - 1);
    assert Eval(h, env, Symbol("x"), fuel) == Outcome(h, Ok(Pair(c)));
  }

  /** Evaluating a list whose head is a number and that has arguments is a
      RuntimeError: the number is no function.  So `(eval ('(1 2)))` fails,
      as `('(1 2))` is `(1 2)` (parser.cpp:72-102,
      test_extra_credit_eval.cpp:8-12). */
  lemma NumberIsNoFunction(h: Heap, env: nat, c: nat, n: int, fuel: nat)
    requires Ready(h, env) && c < |h.cells| && h.cells[c].first == Number(n) && h.cells[c].second != Nil
    requires fuel > 0
    ensures Eval(h, env, Pair(c), fuel) == Outcome(h, Err(RuntimeError))
  {
    assert Eval(h, env, Pair(c), fuel) == EvalCell(h, env, c, fuel - 1);
    assert Eval(h, env, Number(n), fuel - 1) == Outcome(h, Ok(Number(n)));
  }

  // ---------------------------------------------------------------------
  // Scheme::Eval

  /** The interpreter refuses to evaluate the empty value and every proper
      list of numbers, such as `(1 2)`, with a RuntimeError; any other proper
      list, and any value that is not a cell, is evaluated in the global
      scope (scheme.cpp:70-83). */
  lemma RunRefusesNumberLists(h: Heap, e: Value, n: nat, fuel: nat)
    requires Wf(h) && 0 < |h.frames| && ValueOk(e, h) && ProperList(h, e, n)
    ensures NumericList(h, e, n) ==> Interpreter.Run(h, e, fuel) == Outcome(h, Err(RuntimeError))
    ensures !NumericList(h, e, n) ==> Interpreter.Run(h, e, fuel) == Eval(h, 0, e, fuel)
  {
    ListPOfList(h, e, n);
    if e == Nil {
      assert n == 0;
    }
  }

  lemma RunEvaluatesAtoms(h: Heap, e: Value, fuel: nat)
    requires Wf(h) && 0 < |h.frames| && ValueOk(e, h) && !e.Pair?
    ensures Interpreter.Run(h, e, fuel) == if e == Nil then Outcome(h, Err(RuntimeError)) else Eval(h, 0, e, fuel)
  {
  }

  /** `(define name k)` as a command binds `name` in the global scope, and
      the next command `name` sees it: the global scope is the same store
      from one `Scheme::Eval` to the next (scheme.cpp:70-83,
      scheme/syntax.cpp:107-136, test_extra_credit_eval.cpp:3-6). */
  lemma DefineSeenByNextCommand(h: Heap, c: nat, d: nat, e: nat, name: string, k: int, fuel: nat, fuel2: nat)
    requires Wf(h) && 0 < |h.frames| && c < |h.cells| && d < |h.cells| && e < |h.cells|
    requires h.cells[c] == CellRec(Symbol("define"), Pair(d))
    requires h.cells[d] == CellRec(Symbol(name), Pair(e))
    requires h.cells[e] == CellRec(Number(k), Nil)
    requires Lookup(h, 0, "define") == Ok(Syntax(DefineForm)) && fuel > 0
    ensures var o := Interpreter.Run(h, Pair(c), fuel);
      && o == Outcome(Insert(h, 0, name, Number(k)), Ok(Number(k)))
      && Interpreter.Run(o.h, Symbol(name), fuel2) == Outcome(o.h, Ok(Number(k)))
  {
    assert IsList(h, Pair(c)) == Ok(false);
    assert ChainTo(h, Pair(d), 2, Nil) by {
      assert Drop(h, Pair(d), 2) == Drop(h, Pair(e), 1) == Drop(h, Nil, 0);
    }
    ToVectorOfChain(h, Pair(d), 2, Nil);
    assert Elements(h, Pair(d), 2) == [Symbol(name), Number(k)] by {
      assert Elements(h, Pair(d), 2) == [Symbol(name)] + Elements(h, Pair(e), 1);
      assert Elements(h, Pair(e), 1) == [Number(k)] + Elements(h, Nil, 0);
    }
    DefineBindsInCurrentScope(h, 0, name, Number(k), fuel - 1);
    InsertShadows(h, 0, name, Number(k));
    assert Eval(h, 0, Symbol("define"), fuel - 1) == Outcome(h, Ok(Syntax(DefineForm)));
    assert EvalCell(h, 0, c, fuel - 1) == ApplySyntax(h, 0, DefineForm, [Symbol(name), Number(k)], fuel - 1);
    assert Eval(h, 0, Pair(c), fuel) == EvalCell(h, 0, c, fuel - 1);
  }

  /** `not` and `boolean?` go by the name, `if` by the kind: a plain symbol
      named `#f` is false to `not` and a boolean to `boolean?`, yet
      `(if x 1 2)` with `x` that symbol takes the first branch
      (scheme/functions.cpp:43-55, 107-120, symbols.cpp:9-11). */
  lemma NameAgainstKind(h: Heap, env: nat, fuel: nat)
    requires Ready(h, env)
    ensures Predicate(Not, [Symbol("#f")]) == Ok(True) && Predicate(BooleanP, [Symbol("#f")]) == Ok(True)
    ensures Predicate(Not, [Number(0)]) == Ok(False) && Predicate(Not, [Nil]) == Ok(False)
    ensures Lookup(h, env, "x") == Ok(Symbol("#f")) ==>
      ApplySyntax(h, env, IfForm, [Symbol("x"), Number(1), Number(2)], fuel) == Outcome(h, Ok(Number(1)))
  {
    if Lookup(h, env, "x") == Ok(Symbol("#f")) {
      assert Eval(h, env, Symbol("x"), fuel) == Outcome(h, Ok(Symbol("#f")));
      assert !IsFalse(Symbol("#f"));
    }
  }
}
