/** The objects of the interpreter (parser.h, symbols.h, functions.h,
    scheme/syntax.h): numbers, symbols, the two boolean symbols, builtin
    functions, closures, special forms and cons cells.  The empty value,
    a null pointer in the source, is the explicit variant `Nil`.  Cells and
    closures have identity, so a value refers to them by a handle into the
    store of heap.dfy. */
module Objects {
  import opened Base

  /** The builtin functions of scheme/functions.cpp, one per class. */
  datatype Builtin =
    | NullP | PairP | NumberP | BooleanP | SymbolP | ListP
    | EqualP          // `IsEqualPred`, bound to both `eq?` and `equal?`
    | IntegerEqualP
    | Not
    | Add | Sub | Mul | Div
    | NumEq | Gt | Lt | Ge | Le
    | Min | Max | Abs
    | Cons | Car | Cdr | SetCar | SetCdr
    | List | ListRef | ListTail

  /** The special forms of scheme/syntax.cpp. */
  datatype Form = IfForm | QuoteForm | LambdaForm | AndForm | OrForm | DefineForm | SetForm | EvalForm

  /** An object, or the empty value.
      - `True` and `False` are the symbol subclasses of symbols.cpp, named
        `#t` and `#f`; a plain `Symbol("#f")` read from the input is a
        different object.
      - `Prim` and `Closure` are the two kinds of `Function`.
      - `Closure(k)` and `Pair(c)` are handles into the store. */
  datatype Value =
    | Nil
    | Number(n: int)
    | Symbol(name: string)
    | True
    | False
    | Prim(op: Builtin)
    | Closure(id: nat)
    | Syntax(form: Form)
    | Pair(cell: nat)

  /** `Object::IsFalse`, overridden by `False::IsFalse`: the answer depends on
      the kind of the object only. */
  predicate IsFalse(v: Value) {
    v.False?
  }

  /** The name a value answers to when it is a `Symbol` (a `dynamic_pointer_cast`
      to `Symbol` succeeds for `True` and `False` too), or `None`. */
  function SymbolName(v: Value): (r: Option<string>)
    ensures r.Some? <==> (v.Symbol? || v.True? || v.False?)
    ensures v.Symbol? ==> r == Some(v.name)
    ensures v.True? ==> r == Some("#t")
    ensures v.False? ==> r == Some("#f")
  {
    match v
    case Symbol(name) => Some(name)
    case True => Some("#t")
    case False => Some("#f")
    case _ => None
  }

  /** A `Function`: something `Cell::Eval` can apply to evaluated arguments. */
  predicate IsFunction(v: Value) {
    v.Prim? || v.Closure?
  }

  /** A `Function` or a `Syntax`. */
  predicate IsCallable(v: Value) {
    IsFunction(v) || v.Syntax?
  }

  /** Falsity goes by kind, not by name: the false object answers to `#f`,
      but of the values named `#f` only it is false, and a plain symbol of
      that name is not; number zero, `True` and the empty value are not
      false either. */
  lemma OnlyFalseIsFalse(v: Value)
    ensures IsFalse(v) ==> SymbolName(v) == Some("#f")
    ensures SymbolName(v) == Some("#f") ==> (IsFalse(v) <==> !v.Symbol?)
    ensures !IsFalse(Number(0)) && !IsFalse(True) && !IsFalse(Nil) && !IsFalse(Symbol("#f"))
  {
  }

  /** True and False are symbols named `#t` and `#f`. */
  lemma BooleansAreSymbols()
    ensures SymbolName(True) == Some("#t") && SymbolName(False) == Some("#f")
    ensures SymbolName(Number(0)) == None && SymbolName(Nil) == None
  {
  }
}
