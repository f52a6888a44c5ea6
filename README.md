# A verified model of a small Scheme interpreter

This project models the core of a small C++ Scheme interpreter in Dafny and
proves properties of the model. It covers every stage of the interpreter:

- the tokenizer, a one-token lookahead cursor over the input characters;
- the reader, which builds cons cells by recursive descent;
- the object model and `Cell::Eval`, the evaluator of call forms;
- the printer;
- the scope chain;
- the eight special forms (`if`, `quote`, `lambda`, `and`, `or`, `define`,
  `set!`, `eval`);
- the builtin predicates, integer arithmetic, comparisons, and pair and list
  operations;
- lambda closures;
- the `Scheme` object, which builds the global scope and offers
  `ReadCommand` and `Eval`.

## How the model is organised

Objects with identity live in an explicit store, `Heaps.Heap`. Cons cells,
scopes and lambda closures are sequences in the store, and a value refers to
one of them by its index. The C++ empty pointer is the value `Nil`.

Each stage is modelled twice:

- **As functions on values.** `Evaluator.Eval`, `Reader.ReadExpr`,
  `Printer.Render` and `Lexing.Advance` take the store before a step and
  return the store after it, together with the value or the error raised.
- **As objects updated in place, like the source.**
  - `Stores.Store` is a class with `cells`, `frames` and `closures` fields.
  - `Lexing.Tokenizer` is the cursor class.
  - `Printer.Output` is the output stream.
  - `Interpreter.Scheme` is the interpreter.

Every method is proved to leave exactly the state the matching function
computes. The methods include the loops of `Scope::Lookup` and `Scope::Set`,
of `ReadList`, of the `Cell` printer, of the arithmetic accumulators, of
`list-ref` and `list-tail`, of `and` and `or`, of the lambda parameter parse,
and of the closure body. The properties are then proved as lemmas about the
functions: `EvalFacts` states how `Cell::Eval` dispatches on its operator
and evaluates arguments in order, the `...Facts` modules state the
builtins and special forms, and `RoundTrip` reads back printed lists.

Evaluating a Scheme program need not terminate. The evaluator therefore
takes a `fuel` bound and answers `OutOfFuel` when it runs out. The walks
along `second` fields (`ToVector`, `list?`, `list-tail`, printing) are
bounded by the number of cells: a longer walk must be going round a cycle,
and the source loops forever there.

The model keeps these source behaviours as they are:

- A closure's frame is made once, when the closure is built, and is reused
  by every call.
- `list?` demands numeric elements, and `Scheme::Eval` refuses exactly the
  lists that `list?` accepts.
- Arithmetic and comparison builtins evaluate their already evaluated
  arguments a second time.
- `and` and `or` evaluate their last argument twice.
- `if` treats the empty value as false.
- A binding to the empty value looks unbound.
- A wrong `quote` argument count is a RuntimeError.
- The `lambda` parameter check tests the element, not the cast symbol.
- The error for an operator that is not a function prints the operator's
  value into its message, which never finishes for a cyclic value; that
  call answers `OutOfFuel`, as other evaluations that do not end do.

Errors are `SyntaxError`, `NameError` and `RuntimeError`, plus three more:

- `Undefined`: a null dereference, signed overflow or division by zero in
  the source.
- `NotImplemented`: `eq?`, `equal?` and `integer-equal?`.
- `OutOfFuel`.

## Model

| member | source | states |
|---|---|---|
| Objects.OnlyFalseIsFalse | symbols.cpp:9-11 | falsity goes by kind: the false object answers to `#f`, but a plain symbol named `#f` is not false, nor are number 0, True and the empty value |
| Objects.BooleansAreSymbols | symbols.cpp:3-7 | True and False are symbols named `#t` and `#f` |
| Objects.SymbolName | parser.cpp:43-45 | a value has a symbol name exactly when it is a Symbol, True or False; True and False answer `#t` and `#f` |
| Heaps.NewCell | parser.cpp:125-127 | a new cell at the next handle holding both fields; older cells, frames and closures unchanged |
| Heaps.SetFirst | parser.cpp:137-139 | only the first field of that one cell changes |
| Heaps.SetSecond | parser.cpp:141-143 | only the second field of that one cell changes |
| Heaps.NewClosure | scheme/functions.cpp:548-554 | a new closure record with the parameters, body and frame; the rest of the store unchanged |
| Stores.Store.NewCell | parser.cpp:125-127 | the store after the call is `Heaps.NewCell` of the store before |
| Stores.Store.SetFirst | parser.cpp:137-139 | the store after the call is `Heaps.SetFirst` of the store before |
| Stores.Store.SetSecond | parser.cpp:141-143 | the store after the call is `Heaps.SetSecond` of the store before |
| Stores.Store.GetFirst | parser.cpp:129-131 | the first field of the cell, an object of the store |
| Stores.Store.GetSecond | parser.cpp:133-135 | the second field of the cell, an object of the store |
| Stores.Store.NewScope | scope.cpp:3-7 | a new empty frame with the given parent |
| Stores.Store.LookupInCurrentScope | scope.cpp:9-15 | the binding in the current frame only, or the empty value; never an error |
| Stores.Store.Lookup | scope.cpp:21-35 | the loop along the parents gives `Scopes.Lookup` |
| Stores.Store.Insert | scope.cpp:37-39 | the store after the call is `Scopes.Insert` of the store before |
| Stores.Store.Set | scope.cpp:41-59 | success exactly when `Scopes.SetVar` succeeds, and then its new store; on NameError nothing changes |
| Stores.Store.Clear | scope.cpp:61-63 | the store after the call is `Scopes.Clear` of the store before |
| Stores.Store.NewClosure | scheme/functions.cpp:548-554 | the store after the call is `Heaps.NewClosure` of the store before |
| Scopes.NewFrame | scope.cpp:3-7 | a new empty frame with the given parent; older frames unchanged |
| Scopes.LookupHere | scope.cpp:9-15 | the binding in frame `f`, or the empty value when the name is absent |
| Scopes.Chain | scope.cpp:21-35 | the frames `Lookup` visits: the frame itself, then ancestors with smaller handles |
| Scopes.Lookup | scope.cpp:21-35 | a found value is never empty; the only error is NameError |
| Scopes.Insert | scope.cpp:37-39 | binds or rebinds in frame `f` only; every other frame is unchanged |
| Scopes.SetVar | scope.cpp:41-59 | the only error is NameError; cells and closures are unchanged |
| Scopes.Clear | scope.cpp:61-63 | frame `f` loses every binding and keeps its parent; other frames are unchanged |
| Scopes.LookupFindsNearest | scope.cpp:21-35 | `Lookup` answers with the nearest frame of the chain that binds the name |
| Scopes.LookupFailsIffUnbound | scope.cpp:30-31 | NameError exactly when no frame of the chain binds the name |
| Scopes.InsertLeavesOthers | scope.cpp:37-39 | lookups of other names, or from frames whose chain misses `f`, are unaffected by `Insert` |
| Scopes.InsertShadows | scope.cpp:37-39 | after `Insert` the name looks up to the new value from `f`; other frames unchanged, so a parent binding is shadowed, not altered |
| Scopes.InsertEmptyLooksUnbound | scope.cpp:10-14 | after binding the empty value, `Lookup` passes over the frame to the parents |
| Scopes.SetChangesNearest | scope.cpp:41-56 | `Set` is `Insert` into the nearest frame that binds the name |
| Scopes.SetFailsIffUnbound | scope.cpp:48-58 | `Set` fails exactly when `Lookup` fails: it never creates a binding |
| Scopes.LookupAfterSet | scope.cpp:41-56 | after a successful `Set` of a non-empty value, `Lookup` from the same frame sees it |
| Scopes.SetKeepsOutside | scope.cpp:41-56 | `Set` changes no frame made after the starting frame |
| Scopes.ClearForgetsCurrent | scope.cpp:61-63 | after `Clear` the frame binds nothing; lookups fall through to the parent, or fail at the global scope |
| Lexing.SkipBlanks | tokenizer.h:76-82 | the first non-blank position at or after `i`; blanks are only spaces and newlines |
| Lexing.DigitsEnd | tokenizer.h:92-98 | the end of the maximal run of digits from `i` |
| Lexing.SymbolEnd | tokenizer.h:152-163 | the end of the run of symbol characters that are not digits |
| Lexing.Advance | tokenizer.h:73-164 | keeps the input, never moves back, moves forward unless at the end; end flag set exactly with the null token |
| Lexing.Start | tokenizer.h:62-64 | the cursor over `s` with its first token read |
| Lexing.At | tokenizer.h:73-164 | the cursor with the token read from position `p`; the input is kept |
| Lexing.Tokenizer.constructor | tokenizer.h:62-64 | the new cursor's state is `Start(s)` |
| Lexing.Tokenizer.ExtractNumber | tokenizer.h:92-98 | the loop consumes the digit run and yields its decimal value |
| Lexing.Tokenizer.SkipBlanksInPlace | tokenizer.h:76-82 | the loop stops at `SkipBlanks` of the old position |
| Lexing.Tokenizer.ExtendSymbol | tokenizer.h:152-163 | the loop stops at `SymbolEnd`; the buffer is exactly the characters consumed |
| Lexing.Tokenizer.Next | tokenizer.h:73-164 | the cursor's new state is `Advance` of its old state |
| Lexing.NextProgress | tokenizer.h:73-164 | every advance before the end consumes input or reaches the end |
| Lexing.EndIsStable | tokenizer.h:85-89 | at the end the token is the null token, and advancing changes nothing |
| Lexing.BlanksProduceNoToken | tokenizer.h:76-82 | spaces and newlines before a token make no difference; blanks up to the end give the null token |
| Lexing.TabIsNotBlank | tokenizer.h:76-82 | for any cursor, a tab after the blanks is not skipped: it starts a symbol token, which runs to `SymbolEnd` |
| Lexing.DigitRunIsOneConstant | tokenizer.h:92-98 | a digit run is one constant token with its decimal value, and clears the unary-sign flag |
| Lexing.SignFoldsOnlyWhenPossible | tokenizer.h:129-149 | `-` or `+` before digits folds into a signed constant exactly when the flag is set; otherwise it is a one-character symbol |
| Lexing.UnarySignRule | tokenizer.h:105-163 | the flag is set after `(`, cleared after a constant, quote, `)`, dot or operator, and unchanged after a longer symbol |
| Lexing.SymbolTokenShape | tokenizer.h:54-57 | a symbol token is non-empty with no digit or delimiter, and a longer symbol ends at a digit, a delimiter or the end |
| Lexing.PunctuationIsOneToken | tokenizer.h:105-127 | `(`, `)`, quote and dot each give exactly their own token and consume one character |
| Lists.Drop | parser.cpp:146-162 | the value `k` steps along second fields, if the chain is that long |
| Lists.Elements | parser.cpp:146-162 | the first fields of the first `n` cells: `n` values naming objects of the store |
| Lists.ToVector | parser.cpp:146-162 | the elements name objects of the store; the only failure is a cyclic walk |
| Lists.ToVectorWithin | parser.cpp:146-162 | the elements name objects of the store; the only failure is the walk bound |
| Lists.Spine | parser.cpp:146-162 | the handles of the first `n` cells, the i-th being the value `i` steps on |
| Lists.ChainFitsStore | parser.cpp:146-162 | a chain that ends has at most as many cells as the store, so the walk bound is never hit |
| Lists.ToVectorOfChain | parser.cpp:146-162 | gives the elements in order, plus a final tail other than the empty value as one more element |
| Lists.ToVectorFailsOnlyOnCycles | parser.cpp:146-162 | `ToVector` fails only on a chain that never ends |
| Builtins.Bool | symbols.cpp:3-11 | True or False, false exactly for `false` |
| Builtins.Predicate | scheme/functions.cpp:4-120 | exactly one argument, else RuntimeError; answers True exactly when the kind or name test holds |
| Builtins.IsList | scheme/functions.cpp:70-92 | the only failure is the cycle bound |
| Builtins.IsListWithin | scheme/functions.cpp:77-91 | the only failure is the walk bound |
| Builtins.Checked | scheme/functions.cpp:123-209 | in the int64 range exactly when valid; otherwise Undefined |
| Builtins.TruncDiv | scheme/functions.cpp:184-209 | C++ division truncating toward zero: the remainder has the dividend's sign and is smaller than the divisor |
| Builtins.Combine | scheme/functions.cpp:123-209 | one accumulator step: an int64 result, or Undefined |
| Builtins.AbsValue | scheme/functions.cpp:374-393 | the magnitude; Undefined for the least int64 |
| Builtins.BuildList | scheme/functions.cpp:468-478 | one fresh cell per argument, no other change; `()` for none |
| Builtins.RefWalk | scheme/functions.cpp:480-510 | an element of the store, or RuntimeError |
| Builtins.TailsFrom | scheme/functions.cpp:512-545 | the tails met along the chain; Undefined at an improper end |
| Builtins.ListOp | scheme/functions.cpp:396-545 | the store stays well formed and only grows; see the ListFacts lemmas |
| ListFacts.CarCdrOfCons | scheme/functions.cpp:396-434 | `car` and `cdr` of a fresh `cons` give back its two arguments |
| ListFacts.SetCarCdrInPlace | scheme/functions.cpp:436-466 | `set-car!`/`set-cdr!` change that field of that one cell, seen through every alias, and return the new value |
| ListFacts.PairOpsNeedPair | scheme/functions.cpp:399-462 | `cons` with other than two arguments, `car`/`cdr` without exactly one pair, and `set-car!`/`set-cdr!` without a pair and a value are RuntimeErrors with the store unchanged |
| ListFacts.ListBuildsProperList | scheme/functions.cpp:468-478 | `list` builds a proper list whose elements are its arguments in order |
| ListFacts.ConsOntoList | scheme/functions.cpp:474-476 | a fresh cell in front of a proper list is a proper list one longer with the new element first |
| ListFacts.ListRefOfList | scheme/functions.cpp:480-510 | the k-th element for `0 <= k < n`, the first for a negative `k`, RuntimeError past the end |
| ListFacts.ListTailOfList | scheme/functions.cpp:512-545 | the k-th tail for `0 <= k <= n`, else RuntimeError |
| ListFacts.ListPOfList | scheme/functions.cpp:70-92 | `list?` of a proper list answers whether all its elements are numbers |
| ListFacts.ListPTrueOnlyForNumericLists | scheme/functions.cpp:77-91 | `list?` answers `#t` only for a proper list of numbers |
| Evaluator.Eval | parser.cpp:16-62 | the store stays well formed and only grows; the answer names objects of the store; the case for each kind of object is `EvalFacts.EvalOfKinds` |
| Evaluator.EvalCell | parser.cpp:72-102 | the store stays well formed and only grows; the dispatch on the operator, including the error whose message prints the operator value, is stated in the EvalFacts lemmas |
| Evaluator.CallFunction | parser.cpp:93-98 | the store stays well formed and only grows |
| Evaluator.EvalArgs | parser.cpp:95-97 | one value per argument; the order of evaluation is `EvalFacts.ArgumentsInOrder` |
| Evaluator.ApplyPrim | scheme/functions.cpp:4-545 | the store stays well formed and only grows; behaviour in ArithmeticFacts and ListFacts |
| Evaluator.Apply | parser.cpp:93-98 | the store stays well formed and only grows |
| Evaluator.Fold | scheme/functions.cpp:123-209 | the store stays well formed and only grows; behaviour in ArithmeticFacts |
| Evaluator.Compare | scheme/functions.cpp:211-324 | the store stays well formed and only grows; behaviour in ArithmeticFacts |
| Evaluator.Extreme | scheme/functions.cpp:326-372 | the store stays well formed and only grows; behaviour in ArithmeticFacts |
| Evaluator.BindParams | scheme/functions.cpp:563-565 | only frames change: cells and closures are kept, no frame is added |
| Evaluator.ApplyClosure | scheme/functions.cpp:556-573 | the store stays well formed and only grows; behaviour in FormFacts |
| Evaluator.EvalBody | scheme/functions.cpp:567-572 | the store stays well formed and only grows |
| Evaluator.ApplySyntax | scheme/syntax.cpp:3-164 | the store stays well formed and only grows; behaviour in FormFacts |
| Evaluator.AndFrom | scheme/syntax.cpp:73-88 | the store stays well formed and only grows |
| Evaluator.OrFrom | scheme/syntax.cpp:90-105 | the store stays well formed and only grows |
| Evaluator.Define | scheme/syntax.cpp:107-136 | the store stays well formed and only grows |
| Evaluator.SetBang | scheme/syntax.cpp:138-153 | the store stays well formed and only grows |
| Evaluator.ParamNames | scheme/syntax.cpp:47-57 | each name is the symbol name of its element; errors are SyntaxError (empty element) or Undefined (non-symbol) |
| Evaluator.MakeLambda | scheme/syntax.cpp:38-71 | a success is a new closure at the next handle |
| EvalFacts.EvalOfKinds | parser.cpp:16-62 | a non-cell leaves the store alone: a number is itself, a symbol (`#t`, `#f` included) its binding, a function or syntax a RuntimeError, the empty value Undefined; a cell goes to `Cell::Eval` for one unit of fuel |
| EvalFacts.OperatorFirst | parser.cpp:73-79 | the operator is evaluated first and its error is the answer; a non-callable operator value with no arguments is the answer |
| EvalFacts.SyntaxGetsArgumentsUnevaluated | parser.cpp:93-100 | a syntax operator is applied to the unevaluated elements of the argument chain, on the store the operator left |
| EvalFacts.FunctionIsCalled | parser.cpp:94-98 | a function operator is called on the cell, on the store the operator left |
| EvalFacts.OtherOperatorEvaluatedAgain | parser.cpp:81-91 | another operator value with arguments is evaluated again: an error is the answer, a function is called, and a non-function is a RuntimeError, or OutOfFuel when the value has no text for the error message |
| EvalFacts.NoFunctionErrorOnlyOnCycles | parser.cpp:85-89 | that error is a RuntimeError for every value other than a cell, and OutOfFuel only for a value reaching a cycle, whose printing never ends |
| EvalFacts.Before | parser.cpp:95-97 | the evaluation of the first `i` arguments keeps the store well formed and growing |
| EvalFacts.EvalArgsSnoc | parser.cpp:95-97 | evaluating one more argument evaluates it on the store the others left and appends its value |
| EvalFacts.BeforeStep | parser.cpp:95-97 | the first `i + 1` arguments are the first `i` followed by argument `i` |
| EvalFacts.ValuesInOrder | parser.cpp:95-97 | when all arguments evaluate, the `i`-th value is the value of argument `i` on the store the first `i` left |
| EvalFacts.FirstFailure | parser.cpp:95-97 | when the arguments fail, some argument fails after all those before it succeeded, with the same error and store |
| EvalFacts.ArgumentsInOrder | parser.cpp:95-97 | left-to-right evaluation on the threaded store: the `i`-th value is that of the `i`-th argument, or the first failure is the answer |
| EvalFacts.CallOnEvaluatedArguments | parser.cpp:93-98 | a function is applied to the values of the elements of a proper argument list, on the store their evaluation left |
| EvalFacts.BodyAsArguments | scheme/functions.cpp:566-571 | a closure body is evaluated as call arguments are, answering the first error or the last value |
| ArithmeticFacts.Nums | scheme/functions.cpp:123-209 | the numbers of a list of Number values, elementwise |
| ArithmeticFacts.ArithmeticOfNumbers | scheme/functions.cpp:123-182 | on numbers: the fold from 0 or 1, or the first minus the rest, when every partial result fits int64; else Undefined |
| ArithmeticFacts.FoldIsFoldNums | scheme/functions.cpp:123-209 | over number arguments the builtins' accumulator loop answers what the same loop over the bare numbers answers, and leaves the store unchanged |
| ArithmeticFacts.FoldIsFoldNumsStep | scheme/functions.cpp:123-209 | one turn of the two loops agrees: if they agree from the next argument on, they agree from this one |
| ArithmeticFacts.NumsFoldFrom | scheme/functions.cpp:123-182 | the loop of `+`, `-`, `*` over numbers from step `i` gives the full sum, difference or product, or Undefined when a partial result leaves int64 |
| ArithmeticFacts.FoldFrom | scheme/functions.cpp:123-182 | the accumulator loop over numbers from argument `i` gives the full fold, or Undefined when a partial result leaves int64 |
| ArithmeticFacts.CompareFrom | scheme/functions.cpp:211-324 | the comparison loop over numbers answers whether the whole chain holds |
| ArithmeticFacts.ExtremeFrom | scheme/functions.cpp:326-372 | the `min`/`max` loop keeps a value that is an argument and bounds all those seen |
| ArithmeticFacts.SubDivNeedArguments | scheme/functions.cpp:140-209 | `-` and `/` with no argument are a RuntimeError |
| ArithmeticFacts.DivideTwo | scheme/functions.cpp:184-209 | `(/ a b)`: Undefined for `b = 0`, else the truncated quotient when in range |
| ArithmeticFacts.Quotient | scheme/functions.cpp:184-209 | the left-to-right C++ quotient of one or more numbers: an int64 value, or Undefined |
| ArithmeticFacts.QuotientErrStays | scheme/functions.cpp:200-205 | once a prefix of the divisions is undefined, every longer prefix is |
| ArithmeticFacts.DivNumsFrom | scheme/functions.cpp:193-206 | the `/` loop over bare numbers from step `i >= 1` on gives the quotient of them all, or Undefined |
| ArithmeticFacts.DivFoldFrom | scheme/functions.cpp:193-206 | the `/` loop over numbers from argument `i >= 1` on gives the quotient of them all, or Undefined |
| ArithmeticFacts.DivisionOfNumbers | scheme/functions.cpp:184-209 | `/` of one or more numbers: `Quotient` of them, or Undefined; so `(/ a)` is `a` |
| ArithmeticFacts.DivideThree | scheme/functions.cpp:184-209 | `(/ a b c)` is `(a / b) / c`, each step truncating toward zero |
| ArithmeticFacts.FoldStep | scheme/functions.cpp:123-209 | one turn of the accumulator loop over a number: combined with the accumulator, store unchanged |
| ArithmeticFacts.InRangeStep | scheme/functions.cpp:123-182 | every intermediate value from a step on fits exactly when the next does and those after it do |
| ArithmeticFacts.SymbolArgumentIsLookedUpAgain | scheme/functions.cpp:123-138 | an already evaluated symbol argument is evaluated again: `(+ 'x)` is the value of `x` |
| ArithmeticFacts.ComparisonOfNumbers | scheme/functions.cpp:211-324 | on numbers: `#t` exactly when every adjacent pair satisfies the relation |
| ArithmeticFacts.ExtremeOfNumbers | scheme/functions.cpp:326-372 | `min`/`max` of numbers: one of the arguments, and at most (at least) each of them |
| ArithmeticFacts.MinMaxNeedArguments | scheme/functions.cpp:326-372 | `min` and `max` with no argument are RuntimeErrors |
| ArithmeticFacts.AbsArity | scheme/functions.cpp:374-393 | `abs` with other than one argument, or of something that does not evaluate again to a number, is a RuntimeError |
| ArithmeticFacts.AbsOfNumber | scheme/functions.cpp:374-393 | the magnitude of its one number argument |
| FormFacts.EvalSelf | parser.cpp:16-18 | a number, and `#t`/`#f` bound to themselves, evaluate to themselves |
| FormFacts.IfChoosesBranch | scheme/syntax.cpp:3-26 | arity 2-3 else SyntaxError; for any condition: its error is the answer, else exactly one branch is evaluated on the store the condition left, or the answer is `()` |
| FormFacts.IfEmptyIsFalse | scheme/syntax.cpp:18-25 | a condition whose value is the empty value takes the else branch |
| FormFacts.AndOfConstants | scheme/syntax.cpp:73-88 | `#t` for none; `#f` at the first false; else the last evaluated again |
| FormFacts.OrOfConstants | scheme/syntax.cpp:90-105 | `#f` for none; the first non-false; else the last evaluated again |
| FormFacts.AndFromConstants | scheme/syntax.cpp:73-88 | the `and` loop from `i` on: `#f` when a later argument is false, else the last argument |
| FormFacts.OrFromConstants | scheme/syntax.cpp:90-105 | the `or` loop from `i` on: the first non-false argument, or `#f` |
| FormFacts.QuoteGivesArgument | scheme/syntax.cpp:28-36 | the one argument unevaluated; any other count is a RuntimeError |
| FormFacts.LambdaBuildsClosure | scheme/syntax.cpp:38-71 | a closure with the parameter names, the body and a fresh frame under the current scope; SyntaxError without a body or arguments |
| FormFacts.ParamNamesOfSymbols | scheme/syntax.cpp:47-57 | a parameter list of symbols parses without error into their names, in order |
| FormFacts.DefineBindsInCurrentScope | scheme/syntax.cpp:107-136 | for any value expression: its error is the answer, else its value is bound in the current frame only (and looks up there when not empty) and is the answer; wrong count or head is a SyntaxError |
| FormFacts.DefineProcedureBindsClosure | scheme/syntax.cpp:113-130 | `(define (f . ps) body)` binds `f` to the closure `lambda` builds |
| FormFacts.SetBangUpdatesBinding | scheme/syntax.cpp:138-153 | for any value expression: its error is the answer; else an unbound name is a NameError on the store the value left, and a bound one changes the nearest binding, which then looks up to the new value |
| FormFacts.BindParamsBinds | scheme/functions.cpp:563-565 | each parameter is bound in the closure's frame to its argument, the last one winning |
| FormFacts.ClosureCallReusesFrame | scheme/functions.cpp:556-573 | for any body: a call binds each parameter in the one frame made with the closure, touching nothing else, then evaluates the body there in order, answering the first error or the last value (`()` for no body) |
| FormFacts.ClosureCallOfNumbers | scheme/functions.cpp:556-573 | a body of numbers answers its last number on the store the binding left |
| FormFacts.EvalBodyOfNumbers | scheme/functions.cpp:567-572 | a body of numbers answers its last expression and leaves the store as it was |
| FormFacts.ClosureArity | scheme/functions.cpp:559-561 | a wrong argument count is a RuntimeError |
| FormFacts.EvalEvaluatesTwice | scheme/syntax.cpp:155-164 | `eval` with other than one argument is a SyntaxError; else the argument's error, or the value of its value on the store the first evaluation left |
| FormFacts.EvalOfQuotedSum | scheme/syntax.cpp:155-164 | `(eval x)` with `x` bound to `(+ 2 3)` gives 5 |
| FormFacts.AddTwoThree | parser.cpp:93-98 | the call of `+` on the cells of `(+ 2 3)` gives 5 |
| FormFacts.NumberIsNoFunction | parser.cpp:77-91 | a list headed by a number with arguments is a RuntimeError |
| FormFacts.RunRefusesNumberLists | scheme.cpp:74-81 | a proper list of numbers is refused; any other list is evaluated in the global scope |
| FormFacts.RunEvaluatesAtoms | scheme.cpp:70-83 | the empty value is a RuntimeError; any other non-cell is evaluated in the global scope |
| FormFacts.DefineSeenByNextCommand | scheme.cpp:70-83 | after the command `(define x k)`, the next command `x` gives `k` |
| FormFacts.NameAgainstKind | scheme/functions.cpp:107-120 | `not` and `boolean?` go by name, `if` by kind: a plain symbol `#f` is false to `not` but true to `if` |
| Reader.ReadExpr | parser.cpp:197-221 | constant and symbol tokens read as themselves; `)`, dot and end of input are SyntaxErrors; the cursor moves forward; that old cells are kept is `ReaderFacts.ReadExprSteps` |
| Reader.ReadList | parser.cpp:225-283 | end of input is a SyntaxError; `)` gives the empty value |
| Reader.ReadItems | parser.cpp:244-260 | the `while` loop: `)` ends the list, end of input is a SyntaxError, a dot goes to `ReadTail`; that old cells are kept is `ReaderFacts.ReadExprSteps` |
| Reader.ReadTail | parser.cpp:262-282 | after the dot: one expression, then `)`, else SyntaxError; it becomes the tail of the last cell |
| Reader.ReadIn | parser.cpp:197-221 | the cursor and store after the call are those `ReadExpr` computes |
| Reader.ReadListIn | parser.cpp:225-283 | the loop linking each new cell by `SetSecond` gives what `ReadList` computes |
| ReaderFacts.ReadExprSteps | parser.cpp:197-221 | reading never changes a cell that existed before |
| ReaderFacts.ReadListShape | parser.cpp:225-283 | a list read is a chain of fresh cells in reading order, and a proper list when the input holds no dot |
| ReaderFacts.ReadItemsShape | parser.cpp:244-260 | the loop extends a chain of fresh cells one cell per element |
| ReaderFacts.ReadTailShape | parser.cpp:262-282 | the dotted tail keeps the chain of fresh cells built before it |
| ReaderFacts.QuoteReadsAsList | parser.cpp:213-215 | `'X` reads as the two-element list `(quote X)` of fresh cells |
| Printer.NatToString | parser.cpp:20-22 | decimal digits without a leading zero |
| Printer.IntToString | parser.cpp:20-22 | a minus sign before the magnitude exactly for negative numbers |
| Printer.DecimalRoundTrip | parser.cpp:20-22 | the tokenizer reads back the digits the printer writes |
| Printer.RenderWithin | printer.cpp:3-10 | a non-cell prints as its atom text; the only failure is the cycle bound |
| Printer.RenderChain | parser.cpp:108-122 | the text of the rest of a chain; the only failure is the cycle bound |
| Printer.Render | printer.cpp:3-16 | the text of a value within the store's size bound; an error is OutOfFuel, and by `PrinterFacts.RenderFailsOnlyOnCycles` only a value reaching a cycle has one |
| Printer.ChainStep | parser.cpp:108-116 | printing one more element of the chain extends the written text by a space and its text |
| Printer.ChainOutOfBudget | parser.cpp:110-115 | a chain still going on when the cell bound is used up has no text |
| Printer.ChainEnd | parser.cpp:117-122 | at the tail, the chain's text is what was written followed by the tail's text |
| Printer.Output.Write | printer.cpp:3-10 | the stream's text is the old text followed by the piece |
| Printer.PrintTo | printer.cpp:3-10 | writes exactly the text `RenderWithin` computes, appended to the stream |
| Printer.PrintCell | parser.cpp:104-123 | writes `(`, the first element and the rest of the chain |
| Printer.PrintChain | parser.cpp:108-122 | the loop writes the further elements and the tail as `RenderChain` computes |
| Printer.PrintItem | parser.cpp:111-112 | writes a space and then the element's text, exactly when the element has a text |
| Printer.PrintEnd | parser.cpp:117-122 | ` . tail` only for a tail other than the empty value, then `)` |
| Printer.Print | printer.cpp:12-16 | returns exactly the text `PrintTo` writes to a fresh stream |
| PrinterFacts.RenderFlatList | parser.cpp:104-123 | a flat list prints as `(a b c)`, or `(a b . t)` when it ends in a value other than the empty one |
| PrinterFacts.FailPath | printer.cpp:3-10 | when printing a value runs out of the bound `b`, a walk of `b + 1` cells from it along `first` and `second` fields |
| PrinterFacts.ChainFailPath | parser.cpp:108-122 | the same walk when printing the rest of a chain runs out |
| PrinterFacts.RenderFailsOnlyOnCycles | printer.cpp:3-16 | printing fails only when a walk from the value along `first` and `second` fields comes back to a cell it passed; every value whose reachable cells hold no cycle prints |
| PrintRead.TokensOfText | tokenizer.h:73-164 | the tokens of `(1 -2)` are `(`, `1`, the symbol `-`, `2`, `)` and the end |
| PrintRead.ReadsRest | parser.cpp:244-256 | the loop of `ReadList` over `- 2)` adds two fresh cells and ends the list |
| PrintRead.ReadsLast | parser.cpp:244-256 | the last turn of the loop over `2)` links a third cell and closes the list |
| PrintRead.ReadsList | parser.cpp:225-256 | `ReadList` after the `(` of `(1 -2)` builds the three cells of `1`, `-`, `2` |
| PrintRead.ThreeElements | parser.cpp:146-162 | the cells read are the proper list `(1 - 2)` |
| PrintRead.ReadsThreeElements | scheme.cpp:59-68 | `ReadCommand` of `(1 -2)` on an empty store gives the three cells `1`, `-`, `2` |
| PrintRead.PrintsText | parser.cpp:104-123 | the two-element list of `1` and `-2` prints as `(1 -2)` |
| PrintRead.NegativeAfterNumberDoesNotRoundTrip | tokenizer.h:129-149 | the list `(1 -2)` prints as text that reads back as the three-element list `(1 - 2)` |
| RoundTrip.CommandReadsOneExpression | scheme.cpp:59-68 | `ReadCommand` succeeds exactly when one expression reads and no token is left; a token left is a SyntaxError, a read error is the answer |
| RoundTrip.CommandOfTwoNumbers | scheme.cpp:59-68 | `1 2` is a SyntaxError, ` 7 ` reads as 7 |
| RoundTrip.SpacedOfNumbers | parser.cpp:108-116 | the printed rest of a list of numbers is each number's digits after a space |
| RoundTrip.DigitsReadBack | tokenizer.h:92-98 | the printed digits of a number followed by a non-digit read as one constant carrying that number |
| RoundTrip.AdvanceAhead | tokenizer.h:73-164 | past a number, the cursor stands on the next number, or on the final `)` |
| RoundTrip.ItemsAtClose | parser.cpp:252-256 | at the closing bracket the cells read so far are the proper list of the numbers read |
| RoundTrip.ItemStep | parser.cpp:244-250 | a number ahead is read into one fresh cell linked after the last one |
| RoundTrip.ReadItemsOfNumbers | parser.cpp:244-256 | the `ReadList` loop over printed numbers builds the proper list of all of them, keeping older cells |
| RoundTrip.RenderNumberList | parser.cpp:104-123 | a proper list of non-negative numbers prints as `(` the numbers separated by spaces `)` |
| RoundTrip.ReadFirstOfText | parser.cpp:225-243 | reading that text puts its first number in a fresh cell and goes on with the loop at the second |
| RoundTrip.ReadListText | parser.cpp:197-283 | reading that text gives the list of its numbers in fresh cells, older cells kept |
| RoundTrip.ReadEmptyList | scheme.cpp:59-68 | `()` reads back as the empty value |
| RoundTrip.NumberListRoundTrip | scheme.cpp:59-68 | `ReadCommand` of the printed text of a proper list of numbers `0..2147483647` gives a proper list of fresh cells with the same elements in order, existing cells untouched |
| Machine.EvalIn | parser.cpp:16-62 | on the store object: the result and new store are those `Evaluator.Eval` computes |
| Machine.EvalCellIn | parser.cpp:72-102 | as `Evaluator.EvalCell` |
| Machine.ApplyIn | parser.cpp:93-98 | as `Evaluator.Apply` |
| Machine.CallIn | parser.cpp:93-98 | the loop overwriting each argument with its value gives `Evaluator.CallFunction` |
| Machine.ApplyPrimIn | scheme/functions.cpp:4-545 | as `Evaluator.ApplyPrim` |
| Machine.FoldIn | scheme/functions.cpp:123-209 | the accumulator loop gives `Evaluator.Fold` |
| Machine.CompareIn | scheme/functions.cpp:211-324 | the `prev_number` loop gives `Evaluator.Compare` |
| Machine.ExtremeIn | scheme/functions.cpp:326-372 | the loop gives `Evaluator.Extreme` |
| Machine.BuildListIn | scheme/functions.cpp:468-478 | as `Builtins.BuildList` |
| Machine.RefWalkIn | scheme/functions.cpp:480-510 | the `while` loop gives `Builtins.RefWalk` |
| Machine.TailsIn | scheme/functions.cpp:512-545 | the loop pushing into `results` gives `Builtins.TailsFrom` |
| Machine.ListOpIn | scheme/functions.cpp:396-545 | as `Builtins.ListOp`, with `set-car!`/`set-cdr!` done in place |
| Machine.ApplyClosureIn | scheme/functions.cpp:556-573 | the binding and body loops give `Evaluator.ApplyClosure` |
| Machine.ApplySyntaxIn | scheme/syntax.cpp:3-164 | as `Evaluator.ApplySyntax` |
| Machine.IfIn | scheme/syntax.cpp:3-26 | as the `if` case of `Evaluator.ApplySyntax` |
| Machine.AndIn | scheme/syntax.cpp:73-88 | the early-return loop gives `Evaluator.AndFrom` |
| Machine.OrIn | scheme/syntax.cpp:90-105 | the early-return loop gives `Evaluator.OrFrom` |
| Machine.ParamNamesIn | scheme/syntax.cpp:47-57 | the loop pushing names gives `Evaluator.ParamNames` |
| Machine.LambdaIn | scheme/syntax.cpp:38-71 | as `Evaluator.MakeLambda` |
| Machine.DefineIn | scheme/syntax.cpp:107-136 | as `Evaluator.Define` |
| Machine.SetIn | scheme/syntax.cpp:138-153 | as `Evaluator.SetBang` |
| Interpreter.Object | scheme.cpp:5-56 | a bound constant is never the empty value, a cell or a closure |
| Interpreter.Binding | scheme.cpp:5-56 | the object of the last table entry for the name; none exactly when no entry names it |
| Interpreter.GlobalScope | scheme.cpp:3-57 | after construction the global scope binds exactly the table's names, each to its object |
| Interpreter.Command | scheme.cpp:59-68 | the store stays well formed and only grows; that a token left after the expression is a SyntaxError is `RoundTrip.CommandReadsOneExpression` |
| Interpreter.Run | scheme.cpp:70-83 | the store stays well formed and only grows; see RunRefusesNumberLists |
| Interpreter.Scheme.constructor | scheme.cpp:3-57 | the store is in the `Initial` state: one global frame binding the table |
| Interpreter.Scheme.ReadCommand | scheme.cpp:59-68 | the result and new store are those `Command` computes |
| Interpreter.Scheme.Eval | scheme.cpp:70-83 | the result and new store are those `Run` computes on the old store, so what one call defines the next sees |

## Left out

- Input streams are modelled as a character sequence with a position. The
  stream state and failbit are not modelled. The tokenizer extracts a
  constant into an `int` (tokenizer.h:26, 93-94, 130-131, 138-139), so in
  the source a digit run above 2147483647 fails extraction; the model gives
  its unbounded decimal value instead. Numbers are unbounded in the model:
  the results of arithmetic are range-checked to `int64_t`
  (`Builtins.Checked`), but a constant that was read is not.
- Error message texts are not modelled; only the kind of error is kept.
- Memory management is not modelled: reference counts, the leaks of cyclic
  structures, and the destructor's `Clear` of the global scope.
- Evaluation takes a fuel bound, and running out of it is `OutOfFuel`. A
  program that runs forever, or a stack exhaustion, is not distinguished
  from one that needs more fuel. Walks along the `second` fields of a
  cyclic structure are bounded by the number of cells instead of looping.
- `eq?`, `equal?` and `integer-equal?` only throw a "not implemented"
  exception in the source. They are modelled as the error `NotImplemented`.
  No property is proved about them.
- C++ undefined behaviour becomes the explicit error `Undefined`. This
  covers null-pointer dereferences, signed overflow and division by zero.
  No property is proved about what the source does in those cases.
- RoundTrip.NumberListRoundTrip: the print/read round trip is proved for
  proper lists of numbers from 0 to 2147483647 only. A negative number
  after the first element prints as `-k` but reads back as the symbol `-`
  and the number `k`, because the tokenizer clears the unary-sign flag
  after a constant; `PrintRead` proves that counterexample. Nested lists,
  symbols and dotted tails are not covered by a round-trip lemma.
- ArithmeticFacts.ArithmeticOfNumbers: stated for number arguments only.
  The source evaluates every argument again, so a symbol bound to a number
  also passes (see `SymbolArgumentIsLookedUpAgain`). That re-evaluation is
  why "any non-number argument raises RuntimeError" is not stated in
  general.
- ArithmeticFacts.ComparisonOfNumbers: stated for number arguments only,
  for the same reason.
- FormFacts.AndOfConstants and FormFacts.OrOfConstants: stated for
  arguments that evaluate to themselves. Other arguments are covered by
  `Machine.AndIn` and `Machine.OrIn` against `Evaluator.AndFrom` and
  `Evaluator.OrFrom`.
- ReaderFacts.ReadListShape: "ends in the empty value unless dotted" is
  stated for an input without a `.` character. It states the shape of any
  list read, not which values the cells hold; the elements are tied to the
  text only in `RoundTrip.NumberListRoundTrip`, for flat lists of
  non-negative numbers.
- Interpreter.GlobalScope: stated for every name against the table. No
  lemma checks the table's entries one by one.
