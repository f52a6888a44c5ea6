/** Printing then reading does not always give back the same list.  The
    printer writes a negative number as `-` and its digits
    (parser.cpp:20-22), but the tokenizer folds a sign into a number only
    while its unary-sign flag is set, and a number clears it
    (tokenizer.h:92-98, 129-149): the list `(1 -2)` prints as the text
    `(1 -2)`, which reads back as the three-element list `(1 - 2)`. */
module PrintRead {
  import opened Base
  import opened Objects
  import opened Heaps
  import opened Lexing
  import opened Lists
  import opened Reader
  import opened Printer
  import Interpreter

  const Text: string := "(1 -2)"

  /** The store holding the list `(1 -2)` in cells 0 and 1. */
  const Printed: Heap := Heap([CellRec(Number(1), Pair(1)), CellRec(Number(-2), Nil)], [], [])

  /** The store after reading `Text` into an empty store. */
  const Read3: Heap :=
    Heap([CellRec(Number(1), Pair(1)), CellRec(Symbol("-"), Pair(2)), CellRec(Number(2), Nil)], [], [])

  /** The tokens of `Text`: `(`, `1`, the symbol `-`, `2`, `)`, end. */
  lemma TokensOfText()
    ensures Start(Text) == Lexer(Text, 1, BracketToken(Open), true, false)
    ensures Advance(Lexer(Text, 1, BracketToken(Open), true, false)) == Lexer(Text, 2, ConstantToken(1), false, false)
    ensures Advance(Lexer(Text, 2, ConstantToken(1), false, false)) == Lexer(Text, 4, SymbolToken("-"), false, false)
    ensures Advance(Lexer(Text, 4, SymbolToken("-"), false, false)) == Lexer(Text, 5, ConstantToken(2), false, false)
    ensures Advance(Lexer(Text, 5, ConstantToken(2), false, false)) == Lexer(Text, 6, BracketToken(Close), false, false)
    ensures Advance(Lexer(Text, 6, BracketToken(Close), false, false)) == Lexer(Text, 6, NullToken, false, true)
  {
    assert SkipBlanks(Text, 0) == 0;
    assert SkipBlanks(Text, 1) == 1;
    assert DigitsEnd(Text, 1) == 2;
    assert Text[1..2] == "1";
    assert SkipBlanks(Text, 2) == 3;
    assert SkipBlanks(Text, 4) == 4;
    assert DigitsEnd(Text, 4) == 5;
    assert Text[4..5] == "2";
    assert SkipBlanks(Text, 5) == 5;
    assert SkipBlanks(Text, 6) == 6;
  }

  /** The store after reading `1` and `-`. */
  const Read2: Heap := Heap([CellRec(Number(1), Pair(1)), CellRec(Symbol("-"), Nil)], [], [])

  /** The last turn of the `ReadList` loop, over `2)`. */
  lemma ReadsLast()
    ensures ReadItems(Lexer(Text, 5, ConstantToken(2), false, false), Read2, 0, 1, Number(1))
      == ReadOut(Lexer(Text, 6, NullToken, false, true), Read3, Ok(Pair(0)))
  {
    TokensOfText();
    var l4 := Lexer(Text, 5, ConstantToken(2), false, false);
    var l5 := Lexer(Text, 6, BracketToken(Close), false, false);
    var l6 := Lexer(Text, 6, NullToken, false, true);
    assert ReadItems(l5, Read3, 0, 2, Number(1)) == ReadOut(l6, Read3, Ok(Pair(0)));
    assert ReadExpr(l4, Read2) == ReadOut(l5, Read2, Ok(Number(2)));
    assert SetSecond(NewCell(Read2, Number(2), Nil), 1, Pair(2)) == Read3;
  }

  /** The loop of `ReadList` over `- 2)`, after the first element. */
  lemma ReadsRest()
    ensures ReadItems(Lexer(Text, 4, SymbolToken("-"), false, false), Heap([CellRec(Number(1), Nil)], [], []), 0, 0, Number(1))
      == ReadOut(Lexer(Text, 6, NullToken, false, true), Read3, Ok(Pair(0)))
  {
    TokensOfText();
    ReadsLast();
    var l3 := Lexer(Text, 4, SymbolToken("-"), false, false);
    var l4 := Lexer(Text, 5, ConstantToken(2), false, false);
    var h1 := Heap([CellRec(Number(1), Nil)], [], []);
    assert ReadExpr(l3, h1) == ReadOut(l4, h1, Ok(Symbol("-")));
    assert SetSecond(NewCell(h1, Symbol("-"), Nil), 0, Pair(1)) == Read2;
  }

  /** The cells of `Read3` are the list `(1 - 2)`. */
  lemma ThreeElements()
    ensures ProperList(Read3, Pair(0), 3)
    ensures Elements(Read3, Pair(0), 3) == [Number(1), Symbol("-"), Number(2)]
  {
    assert Drop(Read3, Pair(0), 3) == Drop(Read3, Pair(1), 2) == Drop(Read3, Pair(2), 1) == Some(Nil);
    assert Elements(Read3, Pair(2), 1) == [Number(2)] + Elements(Read3, Nil, 0);
  }

  /** `ReadList` after the `(` of `Text`. */
  lemma ReadsList()
    ensures ReadList(Lexer(Text, 2, ConstantToken(1), false, false), Heap([], [], []))
      == ReadOut(Lexer(Text, 6, NullToken, false, true), Read3, Ok(Pair(0)))
  {
    TokensOfText();
    ReadsRest();
    var h0 := Heap([], [], []);
    var l2 := Lexer(Text, 2, ConstantToken(1), false, false);
    var l3 := Lexer(Text, 4, SymbolToken("-"), false, false);
    assert ReadExpr(l2, h0) == ReadOut(l3, h0, Ok(Number(1)));
    assert NewCell(h0, Number(1), Nil) == Heap([CellRec(Number(1), Nil)], [], []);
  }

  /** `ReadCommand` of `Text` on an empty store: three cells, `1`, `-` and
      `2`. */
  lemma ReadsThreeElements()
    ensures Interpreter.Command(Heap([], [], []), Text) == Outcome(Read3, Ok(Pair(0)))
  {
    TokensOfText();
    ReadsList();
    var h0 := Heap([], [], []);
    var l1 := Lexer(Text, 1, BracketToken(Open), true, false);
    var l6 := Lexer(Text, 6, NullToken, false, true);
    assert Advance(l1) == Lexer(Text, 2, ConstantToken(1), false, false);
    assert ReadExpr(l1, h0) == ReadList(Advance(l1), h0);
    assert ReadExpr(Start(Text), h0) == ReadOut(l6, Read3, Ok(Pair(0)));
  }

  /** The list `(1 -2)` of two elements prints as `Text`. */
  lemma PrintsText()
    ensures ProperList(Printed, Pair(0), 2)
    ensures Elements(Printed, Pair(0), 2) == [Number(1), Number(-2)]
    ensures Render(Printed, Pair(0)) == Ok(Text)
  {
    var h := Printed;
    assert Drop(h, Pair(0), 2) == Drop(h, Pair(1), 1) == Some(Nil);
    assert Elements(h, Pair(1), 1) == [Number(-2)] + Elements(h, Nil, 0);
    assert IntToString(-2) == "-2";
    assert IntToString(1) == "1";
    assert RenderChain(h, Nil, 0) == Ok(")");
    assert RenderWithin(h, Number(-2), 0) == Ok("-2");
    assert h.cells[1] == CellRec(Number(-2), Nil);
    assert " " + "-2" + ")" == " -2)";
    assert RenderChain(h, Pair(1), 1) == Cat(" " + "-2", RenderChain(h, Nil, 0));
    assert RenderChain(h, Pair(1), 1) == Ok(" -2)");
    assert "(" + "1" + " -2)" == Text;
    assert RenderWithin(h, Number(1), 1) == Ok("1");
    assert RenderWithin(h, Pair(0), 2) == Ok(Text);
  }

  /** So reading what `Print` writes for `(1 -2)` gives a list of three
      elements, not the two that were printed. */
  lemma NegativeAfterNumberDoesNotRoundTrip()
    ensures Render(Printed, Pair(0)) == Ok(Text)
    ensures var o := Interpreter.Command(Heap([], [], []), Text);
      && o.r.Ok? && ProperList(o.h, o.r.value, 3)
      && Elements(o.h, o.r.value, 3) != Elements(Printed, Pair(0), 2)
  {
    PrintsText();
    ReadsThreeElements();
    ThreeElements();
  }
}
