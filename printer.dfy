/** Printing (printer.cpp and the `PrintObjectToOstream` of each kind of
    object in parser.cpp).  `Render` is the text of a value, computed on the
    store as a value; `PrintTo` writes it piece by piece to an `Output`,
    walking the chain of a cell in a loop as the source does, and `Print`
    returns what `PrintTo` wrote.  A cyclic structure prints forever in the
    source; here every cell visited spends one unit of a bound equal to the
    number of cells, and running out is `OutOfFuel`. */
module Printer {
  import opened Base
  import opened Objects
  import opened Heaps
  import opened Lexing
  import Stores

  // ---------------------------------------------------------------------
  // Numbers

  function DigitChar(d: nat): (c: char)
    requires d < 10
    ensures IsDigit(c) && (c as int) - ('0' as int) == d
  {
    ('0' as int + d) as char
  }

  /** The decimal digits of `n`, most significant first, without leading
      zeros. */
  function NatToString(n: nat): (s: string)
    ensures |s| > 0 && AllDigits(s)
    ensures |s| > 1 ==> s[0] != '0'
  {
    if n < 10 then [DigitChar(n)]
    else NatToString(n / 10) + [DigitChar(n % 10)]
  }

  /** `operator<<` of an `int64_t`: a minus sign before the magnitude of a
      negative number. */
  function IntToString(n: int): (s: string)
    ensures |s| > 0
    ensures n >= 0 <==> IsDigit(s[0])
    ensures n < 0 ==> s[0] == '-' && s[1..] == NatToString(-n)
  {
    if n < 0 then "-" + NatToString(-n) else NatToString(n)
  }

  /** The tokenizer reads back the digits the printer writes. */
  lemma {:induction false} DecimalRoundTrip(n: nat)
    ensures DecimalValue(NatToString(n)) == n
  {
    if n >= 10 {
      DecimalRoundTrip(n / 10);
      var s := NatToString(n);
      assert s[..|s| - 1] == NatToString(n / 10);
    }
  }

  // ---------------------------------------------------------------------
  // The text of a value

  /** The text of a value that is not a cell: `()` for the empty value
      (printer.cpp:4-7), the decimal value of a number (parser.cpp:20-22),
      the name of a symbol, `#t` and `#f` included (parser.cpp:36-38,
      symbols.cpp:3-7), `<function>` for builtins and closures and `<syntax>`
      for special forms (parser.cpp:52-54, 64-66). */
  function Atom(v: Value): (s: string)
    requires !v.Pair?
  {
    match v
    case Nil => "()"
    case Number(n) => IntToString(n)
    case Symbol(name) => name
    case True => "#t"
    case False => "#f"
    case Prim(_) => "<function>"
    case Closure(_) => "<function>"
    case Syntax(_) => "<syntax>"
  }

  /** `p` before the text of `r`, or the error of `r`. */
  function Cat(p: string, r: Result<string>): (c: Result<string>)
    ensures c.Ok? <==> r.Ok?
    ensures c.Ok? ==> c.value == p + r.value
  {
    if r.Ok? then Ok(p + r.value) else r
  }

  lemma CatCat(p: string, q: string, r: Result<string>)
    ensures Cat(p, Cat(q, r)) == Cat(p + q, r)
  {
    if r.Ok? {
      assert p + (q + r.value) == p + q + r.value;
    }
  }

  lemma CatEmpty(r: Result<string>)
    ensures Cat("", r) == r
  {
    if r.Ok? {
      assert "" + r.value == r.value;
    }
  }

  /** The text of `v` (`PrintTo`, printer.cpp:3-10), visiting at most `b`
      cells along any path. */
  function RenderWithin(h: Heap, v: Value, b: nat): (r: Result<string>)
    requires Wf(h) && ValueOk(v, h)
    ensures r.Err? ==> r.error == OutOfFuel
    ensures !v.Pair? ==> r == Ok(Atom(v))
    decreases b, 0
  {
    match v
    case Pair(c) =>
      if b == 0 then Err(OutOfFuel)
      else
        var first := RenderWithin(h, h.cells[c].first, b - 1);
        if first.Err? then first
        else Cat("(" + first.value, RenderChain(h, h.cells[c].second, b - 1))
    case _ => Ok(Atom(v))
  }

  /** The rest of the text of a cell after its first element, `next` being
      its `second` (parser.cpp:108-122): a space and the element for each
      further cell, then ` . ` and the tail when the chain ends in a value
      other than the empty one, then `)`. */
  function RenderChain(h: Heap, next: Value, b: nat): (r: Result<string>)
    requires Wf(h) && ValueOk(next, h)
    ensures r.Err? ==> r.error == OutOfFuel
    decreases b, 1
  {
    match next
    case Pair(c) =>
      if b == 0 then Err(OutOfFuel)
      else
        var item := RenderWithin(h, h.cells[c].first, b - 1);
        if item.Err? then item
        else
          var rest := RenderChain(h, h.cells[c].second, b - 1);
          Cat(" " + item.value, rest)
    case Nil => Ok(")")
    case _ => Ok(" . " + Atom(next) + ")")
  }

  /** The text of `v` in the store `h`. */
  function Render(h: Heap, v: Value): (r: Result<string>)
    requires Wf(h) && ValueOk(v, h)
    ensures r.Err? ==> r.error == OutOfFuel
  {
    RenderWithin(h, v, |h.cells|)
  }

  // ---------------------------------------------------------------------
  // Printing to a stream

  /** The output stream: the text written so far. */
  class Output {
    var text: string

    constructor ()
      ensures text == ""
    {
      text := "";
    }

    /** `*out << piece`. */
    method Write(piece: string)
      modifies this
      ensures text == old(text) + piece
    {
      text := text + piece;
    }
  }

  lemma Assoc(a: string, b: string, c: string)
    ensures a + b + c == a + (b + c)
  {
  }

  lemma Assoc3(a: string, b: string, c: string, d: string)
    ensures a + b + c + d == a + (b + (c + d))
  {
  }

  /** The invariant of the chain loop: the text of the chain from `next` is
      what is written so far followed by the text of the chain from
      `current`. */
  predicate SoFar(h: Heap, next: Value, b: nat, written: string, current: Value, budget: nat)
    requires Wf(h) && ValueOk(next, h) && ValueOk(current, h)
  {
    RenderChain(h, next, b) == Cat(written, RenderChain(h, current, budget))
  }

  /** One step of the chain loop: from the text written so far and the rest
      of the chain at cell `c`, to the text with the element of `c` added and
      the rest from the `second` of `c`. */
  lemma ChainStep(h: Heap, next: Value, b: nat, written: string, c: nat, budget: nat)
    requires Wf(h) && ValueOk(next, h) && c < |h.cells| && budget > 0
    requires SoFar(h, next, b, written, Pair(c), budget)
    ensures var item := RenderWithin(h, h.cells[c].first, budget - 1);
      && (item.Err? ==> RenderChain(h, next, b).Err?)
      && (item.Ok? ==> SoFar(h, next, b, written + (" " + item.value), h.cells[c].second, budget - 1))
  {
    var item := RenderWithin(h, h.cells[c].first, budget - 1);
    if item.Ok? {
      CatCat(written, " " + item.value, RenderChain(h, h.cells[c].second, budget - 1));
    }
  }

  /** A chain still going on when the bound is used up has no text. */
  lemma ChainOutOfBudget(h: Heap, next: Value, b: nat, written: string, c: nat)
    requires Wf(h) && ValueOk(next, h) && c < |h.cells|
    requires SoFar(h, next, b, written, Pair(c), 0)
    ensures RenderChain(h, next, b).Err?
  {
  }

  /** At the tail, the text of the chain is what was written followed by the
      text of the tail. */
  lemma ChainEnd(h: Heap, next: Value, b: nat, written: string, last: Value, budget: nat)
    requires Wf(h) && ValueOk(next, h) && ValueOk(last, h) && !last.Pair?
    requires SoFar(h, next, b, written, last, budget)
    ensures RenderChain(h, next, b).Ok? && RenderChain(h, last, budget).Ok?
    ensures RenderChain(h, next, b).value == written + RenderChain(h, last, budget).value
  {
  }

  /** `PrintTo` (printer.cpp:3-10) with the bound `b`: appends the text of
      `v` to `out` and answers true, or answers false when the bound runs
      out. */
  method PrintTo(h: Heap, v: Value, b: nat, out: Output) returns (done: bool)
    requires Wf(h) && ValueOk(v, h)
    modifies out
    ensures done <==> RenderWithin(h, v, b).Ok?
    ensures done ==> out.text == old(out.text) + RenderWithin(h, v, b).value
    decreases b, 1
  {
    if !v.Pair? {
      out.Write(Atom(v));
      return true;
    }
    done := PrintCell(h, v.cell, b, out);
  }

  /** `Cell::PrintObjectToOstream` (parser.cpp:104-123): `(`, the first
      element, then the rest of the chain. */
  method PrintCell(h: Heap, c: nat, b: nat, out: Output) returns (done: bool)
    requires Wf(h) && c < |h.cells|
    modifies out
    ensures done <==> RenderWithin(h, Pair(c), b).Ok?
    ensures done ==> out.text == old(out.text) + RenderWithin(h, Pair(c), b).value
    decreases b, 0
  {
    if b == 0 {
      return false;
    }
    ghost var first := RenderWithin(h, h.cells[c].first, b - 1);
    ghost var chain := RenderChain(h, h.cells[c].second, b - 1);
    ghost var start := out.text;
    out.Write("(");
    done := PrintTo(h, h.cells[c].first, b - 1, out);
    if done {
      done := PrintChain(h, h.cells[c].second, b - 1, out);
      if done {
        Assoc3(start, "(", first.value, chain.value);
        Assoc("(", first.value, chain.value);
      }
    }
  }

  /** The loop of the `Cell` printer over the rest of the chain, `next`
      being the `second` of the cell whose first element is printed: a space
      and each further element, then the tail. */
  method PrintChain(h: Heap, next: Value, b: nat, out: Output) returns (done: bool)
    requires Wf(h) && ValueOk(next, h)
    modifies out
    ensures done <==> RenderChain(h, next, b).Ok?
    ensures done ==> out.text == old(out.text) + RenderChain(h, next, b).value
    decreases b, 2
  {
    ghost var start := out.text;
    ghost var written := "";
    var current := next;
    var budget: nat := b;
    CatEmpty(RenderChain(h, next, b));
    while current.Pair?
      invariant ValueOk(current, h) && budget <= b
      invariant out.text == start + written
      invariant SoFar(h, next, b, written, current, budget)
      decreases budget
    {
      if budget == 0 {
        ChainOutOfBudget(h, next, b, written, current.cell);
        return false;
      }
      ghost var item := RenderWithin(h, h.cells[current.cell].first, budget - 1);
      ChainStep(h, next, b, written, current.cell, budget);
      done := PrintItem(h, current.cell, budget, out);
      if !done {
        return;
      }
      Assoc(start, written, " " + item.value);
      written := written + (" " + item.value);
      current := h.cells[current.cell].second;
      budget := budget - 1;
    }
    ghost var tail := RenderChain(h, current, budget);
    ChainEnd(h, next, b, written, current, budget);
    PrintEnd(h, current, budget, out);
    Assoc(start, written, tail.value);
    done := true;
  }

  /** One turn of the chain loop (parser.cpp:111-112): a space, then the
      element of cell `c`. */
  method PrintItem(h: Heap, c: nat, budget: nat, out: Output) returns (done: bool)
    requires Wf(h) && c < |h.cells| && budget > 0
    modifies out
    ensures done <==> RenderWithin(h, h.cells[c].first, budget - 1).Ok?
    ensures done ==> out.text == old(out.text) + (" " + RenderWithin(h, h.cells[c].first, budget - 1).value)
    decreases budget, 0
  {
    ghost var start := out.text;
    out.Write(" ");
    done := PrintTo(h, h.cells[c].first, budget - 1, out);
    if done {
      Assoc(start, " ", RenderWithin(h, h.cells[c].first, budget - 1).value);
    }
  }

  /** The end of the `Cell` printer: ` . ` and the tail when it is not the
      empty value, then `)`. */
  method PrintEnd(h: Heap, last: Value, b: nat, out: Output)
    requires Wf(h) && ValueOk(last, h) && !last.Pair?
    modifies out
    ensures RenderChain(h, last, b).Ok?
    ensures out.text == old(out.text) + RenderChain(h, last, b).value
  {
    if last != Nil {
      out.Write(" . ");
      out.Write(Atom(last));
    }
    out.Write(")");
  }

  /** `Print` (printer.cpp:12-16): the text `PrintTo` writes to a fresh
      stream. */
  method Print(s: Stores.Store, v: Value) returns (r: Result<string>)
    requires Wf(s.Snapshot()) && ValueOk(v, s.Snapshot())
    ensures r == Render(s.Snapshot(), v)
  {
    var out := new Output();
    var done := PrintTo(s.Snapshot(), v, |s.cells|, out);
    if done {
      assert "" + Render(s.Snapshot(), v).value == Render(s.Snapshot(), v).value;
      r := Ok(out.text);
    } else {
      r := Err(OutOfFuel);
    }
  }
}
