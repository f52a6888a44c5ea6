/** The interpreter object of scheme.cpp: the global scope with its
    bindings, `ReadCommand` and `Eval`.  The global scope is frame 0 of the
    store; it lives as long as the interpreter, so what one command defines
    is seen by the next. */
module Interpreter {
  import opened Base
  import opened Objects
  import opened Heaps
  import opened Scopes
  import opened Lexing
  import opened Reader
  import opened Builtins
  import Evaluator
  import Machine
  import Stores

  /** An object the constructor binds: a boolean, a special form or a
      builtin. */
  datatype Constant = BoolConst(b: bool) | FormConst(form: Form) | PrimConst(op: Builtin)

  /** The object itself: never the empty value, and without a handle. */
  function Object(k: Constant): (v: Value)
    ensures v != Nil && !v.Pair? && !v.Closure?
  {
    match k
    case BoolConst(b) => if b then True else False
    case FormConst(form) => Syntax(form)
    case PrimConst(op) => Prim(op)
  }

  /** The global bindings, in the order the constructor inserts them
      (scheme.cpp:5-56).  `eq?` and `equal?` are bound to the same kind of
      object. */
  const Globals: seq<(string, Constant)> := [
    ("#t", BoolConst(true)), ("#f", BoolConst(false)),
    ("if", FormConst(IfForm)), ("quote", FormConst(QuoteForm)), ("lambda", FormConst(LambdaForm)),
    ("and", FormConst(AndForm)), ("or", FormConst(OrForm)), ("define", FormConst(DefineForm)),
    ("set!", FormConst(SetForm)), ("eval", FormConst(EvalForm)),
    ("null?", PrimConst(NullP)), ("pair?", PrimConst(PairP)), ("number?", PrimConst(NumberP)),
    ("boolean?", PrimConst(BooleanP)), ("symbol?", PrimConst(SymbolP)), ("list?", PrimConst(ListP)),
    ("eq?", PrimConst(EqualP)), ("equal?", PrimConst(EqualP)), ("integer-equal?", PrimConst(IntegerEqualP)),
    ("not", PrimConst(Not)),
    ("+", PrimConst(Add)), ("-", PrimConst(Sub)), ("*", PrimConst(Mul)), ("/", PrimConst(Div)),
    ("=", PrimConst(NumEq)), (">", PrimConst(Gt)), ("<", PrimConst(Lt)), (">=", PrimConst(Ge)), ("<=", PrimConst(Le)),
    ("min", PrimConst(Min)), ("max", PrimConst(Max)), ("abs", PrimConst(Abs)),
    ("cons", PrimConst(Cons)), ("car", PrimConst(Car)), ("cdr", PrimConst(Cdr)),
    ("set-car!", PrimConst(SetCar)), ("set-cdr!", PrimConst(SetCdr)),
    ("list", PrimConst(List)), ("list-ref", PrimConst(ListRef)), ("list-tail", PrimConst(ListTail))
  ]

  /** The object the last entry of `bs` for `name` binds, if there is
      one: a later `Insert` of a name replaces an earlier one. */
  function Binding(bs: seq<(string, Constant)>, name: string): (r: Option<Value>)
    ensures r.Some? ==> exists i :: 0 <= i < |bs| && bs[i].0 == name && r.value == Object(bs[i].1)
    ensures r.None? <==> forall i :: 0 <= i < |bs| ==> bs[i].0 != name
  {
    if bs == [] then None
    else if bs[|bs| - 1].0 == name then Some(Object(bs[|bs| - 1].1))
    else
      var rest := Binding(bs[..|bs| - 1], name);
      assert forall i :: 0 <= i < |bs| - 1 ==> bs[..|bs| - 1][i] == bs[i];
      rest
  }

  /** The store just after the constructor: the global scope, frame 0,
      binding the names of `Globals` and nothing else; no cell and no
      closure yet. */
  ghost predicate Initial(h: Heap) {
    Wf(h) && |h.frames| == 1 && h.frames[0].parent == None && h.cells == [] && h.closures == []
    && forall name :: LookupHere(h, 0, name) == (if Binding(Globals, name).Some? then Binding(Globals, name).value else Nil)
  }

  /** After construction the global scope binds exactly the names of the
      table, each to the object of its entry (scheme.cpp:3-57). */
  lemma GlobalScope(h: Heap, name: string)
    requires Initial(h)
    ensures Lookup(h, 0, name) == if Binding(Globals, name).Some? then Ok(Binding(Globals, name).value) else Err(NameError)
  {
    assert LookupHere(h, 0, name) == (if Binding(Globals, name).Some? then Binding(Globals, name).value else Nil);
  }

  // ---------------------------------------------------------------------
  // ReadCommand and Eval on values

  /** `Scheme::ReadCommand` (scheme.cpp:59-68): one expression read from a
      fresh cursor over `text`; any token left after it is a SyntaxError. */
  function Command(h: Heap, text: string): (o: Outcome)
    requires Wf(h)
    ensures Fine(h, o)
  {
    var read := ReadExpr(Start(text), h);
    if read.r.Ok? && !read.l.isEnd then Outcome(read.h, Err(SyntaxError))
    else Outcome(read.h, read.r)
  }

  /** `Scheme::Eval` (scheme.cpp:70-83): the empty value, and every value
      `list?` accepts, is a RuntimeError; anything else is evaluated in the
      global scope.  Since `list?` demands numbers, `(1 2)` is refused here
      while `(+ 1 2)` is not. */
  function Run(h: Heap, e: Value, fuel: nat): (o: Outcome)
    requires Wf(h) && 0 < |h.frames| && ValueOk(e, h)
    ensures Fine(h, o)
  {
    if e == Nil then Outcome(h, Err(RuntimeError))
    else
      var b := IsList(h, e);
      if b.Err? then Outcome(h, Err(b.error))
      else if b.value then Outcome(h, Err(RuntimeError))
      else Evaluator.Eval(h, 0, e, fuel)
  }

  // ---------------------------------------------------------------------
  // The interpreter object

  class Scheme {
    /** The store of all cells, scopes and closures; `global_scope_` is its
        frame 0. */
    const store: Stores.Store

    ghost predicate Valid()
      reads this, store
    {
      Wf(store.Snapshot()) && 0 < |store.frames|
    }

    /** `Scheme::Scheme` (scheme.cpp:3-57): the global scope, then one
        `Insert` per entry of the table, in order. */
    constructor ()
      ensures fresh(store) && Valid()
      ensures Initial(store.Snapshot())
    {
      var s := new Stores.Store();
      var global := s.NewScope(None);
      var i := 0;
      while i < |Globals|
        invariant 0 <= i <= |Globals|
        invariant Wf(s.Snapshot()) && |s.frames| == 1 && global == 0
        invariant s.frames[0].parent == None && s.cells == [] && s.closures == []
        invariant forall name ::
          LookupHere(s.Snapshot(), 0, name) == (if Binding(Globals[..i], name).Some? then Binding(Globals[..i], name).value else Nil)
      {
        assert Globals[..i + 1][..i] == Globals[..i];
        s.Insert(global, Globals[i].0, Object(Globals[i].1));
        i := i + 1;
      }
      assert Globals[..i] == Globals;
      store := s;
    }

    /** `Scheme::ReadCommand` (scheme.cpp:59-68) on a tokenizer over `text`. */
    method ReadCommand(text: string) returns (r: Result<Value>)
      requires Valid()
      modifies store
      ensures Valid()
      ensures Outcome(store.Snapshot(), r) == Command(old(store.Snapshot()), text)
    {
      var t := new Tokenizer(text);
      r := ReadIn(t, store);
      if r.Ok? && !t.IsEnd() {
        r := Err(SyntaxError);
      }
    }

    /** `Scheme::Eval` (scheme.cpp:70-83), with the fuel the evaluation may
        spend. */
    method Eval(e: Value, fuel: nat) returns (r: Result<Value>)
      requires Valid() && ValueOk(e, store.Snapshot())
      modifies store
      ensures Valid()
      ensures Outcome(store.Snapshot(), r) == Run(old(store.Snapshot()), e, fuel)
    {
      if e == Nil {
        return Err(RuntimeError);
      }
      var b := IsList(store.Snapshot(), e);
      if b.Err? {
        return Err(b.error);
      }
      if b.value {
        return Err(RuntimeError);
      }
      r := Machine.EvalIn(store, 0, e, fuel);
    }
  }
}
