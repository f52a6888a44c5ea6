/** The reader of parser.cpp (`Read`, `ReadList`): recursive descent over the
    cursor of tokenizer.dfy that builds cons cells in the store.  The
    functions give the reader on values (the cursor state and the store
    before and after); the methods perform it on a `Tokenizer` and a
    `Store` in place, with the loop of `ReadList` that links each new cell
    to the previous one by `SetSecond`, and are proved to agree with the
    functions. */
module Reader {
  import opened Base
  import opened Objects
  import opened Heaps
  import opened Lexing
  import Stores

  /** The cursor and the store after reading, and the value read or the
      error raised. */
  datatype ReadOut = ReadOut(l: Lexer, h: Heap, r: Result<Value>)

  /** What every reading step promises: the cursor stays on the same input
      in a consistent state and never moves back, and moves forward when a
      value is read; the store only grows and stays well formed. */
  predicate ReadFine(l: Lexer, h: Heap, o: ReadOut)
    requires LexOk(l)
  {
    LexOk(o.l) && o.l.input == l.input && Wf(o.h) && Grows(h, o.h)
    && (o.r.Ok? ==> ValueOk(o.r.value, o.h))
    && Remaining(o.l) <= Remaining(l)
    && (o.r.Ok? ==> Remaining(o.l) < Remaining(l))
  }

  /** `IsBracketClose`. */
  predicate IsBracketClose(t: Token) {
    t == BracketToken(Close)
  }

  /** `IsDot`. */
  predicate IsDot(t: Token) {
    t.DotToken?
  }

  /** `Read` (parser.cpp:197-221): takes the current token and advances.  A
      constant is a number, a symbol token a symbol, `(` starts a list and
      `'X` is the list `(quote X)`; `)` and every other token is a
      SyntaxError. */
  function ReadExpr(l: Lexer, h: Heap): (o: ReadOut)
    requires LexOk(l) && Wf(h)
    ensures ReadFine(l, h, o)
    ensures l.token.ConstantToken? ==> o == ReadOut(Advance(l), h, Ok(Number(l.token.value)))
    ensures l.token.SymbolToken? ==> o == ReadOut(Advance(l), h, Ok(Symbol(l.token.name)))
    ensures l.token.NullToken? || l.token.DotToken? || IsBracketClose(l.token) ==> o.r == Err(SyntaxError)
    decreases Remaining(l), 0
  {
    var l1 := Advance(l);
    match l.token
    case ConstantToken(n) => ReadOut(l1, h, Ok(Number(n)))
    case SymbolToken(name) => ReadOut(l1, h, Ok(Symbol(name)))
    case BracketToken(b) =>
      if b == Open then ReadList(l1, h) else ReadOut(l1, h, Err(SyntaxError))
    case QuoteToken =>
      var inner := ReadExpr(l1, h);
      if inner.r.Err? then inner
      else
        var h1 := NewCell(inner.h, inner.r.value, Nil);
        var h2 := NewCell(h1, Symbol("quote"), Pair(|inner.h.cells|));
        ReadOut(inner.l, h2, Ok(Pair(|h1.cells|)))
    case _ => ReadOut(l1, h, Err(SyntaxError))
  }

  /** `ReadList` after `(` (parser.cpp:225-283): `)` gives the empty value;
      otherwise the first expression goes into a fresh cell and the rest is
      read by `ReadItems`. */
  function ReadList(l: Lexer, h: Heap): (o: ReadOut)
    requires LexOk(l) && Wf(h)
    ensures ReadFine(l, h, o)
    ensures l.isEnd ==> o.r == Err(SyntaxError)
    ensures !l.isEnd && IsBracketClose(l.token) ==> o == ReadOut(Advance(l), h, Ok(Nil))
    decreases Remaining(l), 1
  {
    if l.isEnd then ReadOut(l, h, Err(SyntaxError))
    else if IsBracketClose(l.token) then ReadOut(Advance(l), h, Ok(Nil))
    else
      var left := ReadExpr(l, h);
      if left.r.Err? then left
      else
        var h1 := NewCell(left.h, left.r.value, Nil);
        ReadItems(left.l, h1, |left.h.cells|, |left.h.cells|, left.r.value)
  }

  /** The loop of `ReadList` and what follows it.  `result` is the first
      cell, `previous` the last one so far and `left` the first expression.
      While the current token is neither `.` nor `)` and input remains, the
      next expression goes into a fresh cell that becomes the `second` of
      `previous`.  Then `)` ends the list, the end of input is a SyntaxError,
      and `.` starts the tail read by `ReadTail`. */
  function ReadItems(l: Lexer, h: Heap, result: nat, previous: nat, left: Value): (o: ReadOut)
    requires LexOk(l) && Wf(h) && result < |h.cells| && previous < |h.cells| && ValueOk(left, h)
    ensures ReadFine(l, h, o)
    decreases Remaining(l), 2
  {
    if !IsDot(l.token) && !IsBracketClose(l.token) && !l.isEnd then
      var e := ReadExpr(l, h);
      if e.r.Err? then e
      else
        var h1 := NewCell(e.h, e.r.value, Nil);
        var h2 := SetSecond(h1, previous, Pair(|e.h.cells|));
        ReadItems(e.l, h2, result, |e.h.cells|, left)
    else if IsBracketClose(l.token) then ReadOut(Advance(l), h, Ok(Pair(result)))
    else if l.isEnd then ReadOut(l, h, Err(SyntaxError))
    else ReadTail(l, h, result, previous, left)
  }

  /** The dotted tail of `ReadList`, at the `.`: one more expression, which
      must be followed by `)` and becomes the `second` of the last cell (of a
      fresh cell holding `left` when there was just one expression before
      the dot). */
  function ReadTail(l: Lexer, h: Heap, result: nat, previous: nat, left: Value): (o: ReadOut)
    requires LexOk(l) && Wf(h) && result < |h.cells| && previous < |h.cells| && ValueOk(left, h)
    requires !l.isEnd
    ensures ReadFine(l, h, o)
    decreases Remaining(l), 1
  {
    var right := ReadExpr(Advance(l), h);
    if right.r.Err? then right
    else if right.l.isEnd then ReadOut(right.l, right.h, Err(SyntaxError))
    else
      var l2 := Advance(right.l);
      if !IsBracketClose(right.l.token) then ReadOut(l2, right.h, Err(SyntaxError))
      else if previous == result then
        var h3 := NewCell(right.h, left, right.r.value);
        ReadOut(l2, h3, Ok(Pair(|right.h.cells|)))
      else ReadOut(l2, SetSecond(right.h, previous, right.r.value), Ok(Pair(result)))
  }

  // ---------------------------------------------------------------------
  // The reader on the objects

  /** `Read` on a tokenizer and a store. */
  method ReadIn(t: Tokenizer, s: Stores.Store) returns (r: Result<Value>)
    requires LexOk(t.State()) && Wf(s.Snapshot())
    modifies t, s
    ensures ReadOut(t.State(), s.Snapshot(), r) == ReadExpr(old(t.State()), old(s.Snapshot()))
    decreases Remaining(t.State()), 0
  {
    ghost var l := t.State();
    var tok := t.GetToken();
    t.Next();
    match tok
    case ConstantToken(n) =>
      r := Ok(Number(n));
    case SymbolToken(name) =>
      r := Ok(Symbol(name));
    case BracketToken(b) =>
      if b == Open {
        r := ReadListIn(t, s);
      } else {
        r := Err(SyntaxError);
      }
    case QuoteToken =>
      r := ReadIn(t, s);
      if r.Ok? {
        var inner := s.NewCell(r.value, Nil);
        var quoted := s.NewCell(Symbol("quote"), inner);
        r := Ok(quoted);
      }
    case _ =>
      r := Err(SyntaxError);
  }

  /** `ReadList` on a tokenizer and a store, with its loop. */
  method ReadListIn(t: Tokenizer, s: Stores.Store) returns (r: Result<Value>)
    requires LexOk(t.State()) && Wf(s.Snapshot())
    modifies t, s
    ensures ReadOut(t.State(), s.Snapshot(), r) == ReadList(old(t.State()), old(s.Snapshot()))
    decreases Remaining(t.State()), 1
  {
    if t.IsEnd() {
      return Err(SyntaxError);
    }
    if IsBracketClose(t.GetToken()) {
      t.Next();
      return Ok(Nil);
    }
    var left := ReadIn(t, s);
    if left.Err? {
      return left;
    }
    var first := s.NewCell(left.value, Nil);
    var result: nat := first.cell;
    var previous: nat := result;
    ghost var start := old(t.State());
    while !IsDot(t.GetToken()) && !IsBracketClose(t.GetToken()) && !t.IsEnd()
      invariant LexOk(t.State()) && t.State().input == start.input && Wf(s.Snapshot())
      invariant Remaining(t.State()) < Remaining(start)
      invariant result < |s.cells| && previous < |s.cells| && ValueOk(left.value, s.Snapshot())
      invariant ReadList(start, old(s.Snapshot()))
        == ReadItems(t.State(), s.Snapshot(), result, previous, left.value)
      decreases Remaining(t.State())
    {
      var e := ReadIn(t, s);
      if e.Err? {
        return e;
      }
      var cell := s.NewCell(e.value, Nil);
      s.SetSecond(previous, cell);
      previous := cell.cell;
    }
    if IsBracketClose(t.GetToken()) {
      t.Next();
      return Ok(Pair(result));
    }
    if t.IsEnd() {
      return Err(SyntaxError);
    }
    t.Next();
    var right := ReadIn(t, s);
    if right.Err? {
      return right;
    }
    if t.IsEnd() {
      return Err(SyntaxError);
    }
    var tok := t.GetToken();
    t.Next();
    if !IsBracketClose(tok) {
      return Err(SyntaxError);
    }
    if previous == result {
      var pair := s.NewCell(left.value, right.value);
      r := Ok(pair);
    } else {
      s.SetSecond(previous, right.value);
      r := Ok(Pair(result));
    }
  }
}
