/** Reading back what the printer writes.  `Scheme::ReadCommand`
    (scheme.cpp:59-68) reads one expression and refuses a token after it;
    given the text `PrintTo` writes for a proper list of non-negative
    numbers (parser.cpp:104-123), it reads (parser.cpp:197-283, with the
    cursor of tokenizer.h) a proper list of fresh cells with the same
    elements in the same order, and leaves every existing cell alone. */
module RoundTrip {
  import opened Base
  import opened Objects
  import opened Heaps
  import opened Lexing
  import opened Lists
  import opened Reader
  import opened Printer
  import opened PrinterFacts
  import opened ReaderFacts
  import Interpreter

  /** The largest value of the tokenizer's `int` (tokenizer.h:26, 93-94):
      beyond it, extraction of a constant fails in the source. */
  const INT_MAX: int := 0x7fff_ffff

  // ---------------------------------------------------------------------
  // ReadCommand

  /** `ReadCommand` reads one expression from a fresh cursor over the text.
      It succeeds exactly when that read succeeds and no token is left
      after it, and then answers the value read; a token left is a
      SyntaxError, and a read error is the answer.  Either way the store is
      the one the read left (scheme.cpp:59-68). */
  lemma CommandReadsOneExpression(h: Heap, text: string)
    requires Wf(h)
    ensures var read := ReadExpr(Start(text), h);
      var o := Interpreter.Command(h, text);
      && o.h == read.h
      && (o.r.Ok? <==> read.r.Ok? && read.l.token == NullToken)
      && (o.r.Ok? ==> o.r == read.r)
      && (read.r.Ok? && read.l.token != NullToken ==> o.r == Err(SyntaxError))
      && (read.r.Err? ==> o.r == read.r)
  {
  }

  /** `1 2` is two expressions, so a SyntaxError; blanks around one
      expression are no token. */
  lemma CommandOfTwoNumbers(h: Heap)
    requires Wf(h)
    ensures Interpreter.Command(h, "1 2") == Outcome(h, Err(SyntaxError))
    ensures Interpreter.Command(h, " 7 ") == Outcome(h, Ok(Number(7)))
  {
    var s := "1 2";
    assert DigitsEnd(s, 0) == 1 && DigitsEnd(s, 2) == 3;
    assert s[0..1] == "1" && s[2..3] == "2";
    assert DecimalValue("1") == 1 && DecimalValue("2") == 2;
    assert Start(s) == Lexer(s, 1, ConstantToken(1), false, false);
    assert Advance(Start(s)) == Lexer(s, 3, ConstantToken(2), false, false);
    var t := " 7 ";
    assert SkipBlanks(t, 0) == 1 && SkipBlanks(t, 2) == 3;
    assert DigitsEnd(t, 1) == 2 && t[1..2] == "7" && DecimalValue("7") == 7;
    assert Start(t) == Lexer(t, 2, ConstantToken(7), false, false);
    assert Advance(Start(t)).isEnd;
  }

  // ---------------------------------------------------------------------
  // The text of a list of numbers

  /** The numbers `ms` as the printer writes them after a first element: a
      space before each. */
  function SpacedNums(ms: seq<nat>): (s: string)
    ensures ms == [] ==> s == ""
    ensures ms != [] ==> |s| > 0 && s[0] == ' '
  {
    if ms == [] then "" else " " + NatToString(ms[0]) + SpacedNums(ms[1..])
  }

  function NumVals(ms: seq<nat>): (vs: seq<Value>)
    ensures |vs| == |ms| && forall i :: 0 <= i < |ms| ==> vs[i] == Number(ms[i])
  {
    seq(|ms|, i requires 0 <= i < |ms| => Number(ms[i]))
  }

  /** What the printer writes for numbers is what `SpacedNums` writes. */
  lemma {:induction false} SpacedOfNumbers(ms: seq<nat>)
    ensures Spaced(NumVals(ms)) == SpacedNums(ms)
    decreases |ms|
  {
    if ms != [] {
      SpacedOfNumbers(ms[1..]);
      assert NumVals(ms)[1..] == NumVals(ms[1..]);
    }
  }

  // ---------------------------------------------------------------------
  // The cursor over that text

  /** The cursor stands on the number `ms[0]`, and the rest of the input is
      the other numbers as the printer writes them and the closing bracket;
      or, with no number left, on that closing bracket at the very end. */
  predicate Ahead(l: Lexer, ms: seq<nat>) {
    LexOk(l) && !l.isEnd
    && if ms == [] then l.token == BracketToken(Close) && l.pos == |l.input|
       else l.token == ConstantToken(ms[0]) && l.input[l.pos..] == SpacedNums(ms[1..]) + ")"
  }

  /** The digits the printer writes for `m` at `p`, followed by something
      other than a digit, read as one constant token carrying `m`. */
  lemma DigitsReadBack(l: Lexer, m: nat, rest: string)
    requires Advanceable(l) && l.input[l.pos..] == NatToString(m) + rest
    requires rest == [] || !IsDigit(rest[0])
    ensures Advance(l).token == ConstantToken(m)
    ensures Advance(l).pos == l.pos + |NatToString(m)|
    ensures Advance(l).input[Advance(l).pos..] == rest
  {
    var s := l.input;
    var p := l.pos;
    var d := NatToString(m);
    var k := |d|;
    assert s[p..p + k] == s[p..][..k] == d;
    assert p + k == |s| || s[p + k] == rest[0];
    DigitRunIsOneConstant(l, k);
    DecimalRoundTrip(m);
    assert s[p + k..] == s[p..][k..] == rest;
  }

  /** One advance moves the cursor to the next number, or to the closing
      bracket after the last. */
  lemma AdvanceAhead(l: Lexer, ms: seq<nat>)
    requires Ahead(l, ms) && ms != []
    ensures Ahead(Advance(l), ms[1..])
  {
    var s := l.input;
    var p := l.pos;
    if |ms| == 1 {
      assert s[p..] == ")";
      assert s[p] == s[p..][0];
      assert SkipBlanks(s, p) == p;
    } else {
      var tail := ms[1..];
      assert tail[0] == ms[1] && tail[1..] == ms[2..];
      var d := NatToString(ms[1]);
      var rest := SpacedNums(ms[2..]) + ")";
      assert s[p..] == " " + (d + rest);
      assert s[p] == ' ';
      assert s[p + 1..] == d + rest;
      BlanksProduceNoToken(l, p + 1);
      DigitsReadBack(l.(pos := p + 1), ms[1], rest);
    }
  }

  /** After the closing bracket at the end, the cursor is at the end. */
  lemma EndAfterClose(l: Lexer)
    requires Ahead(l, [])
    ensures Advance(l).isEnd
  {
  }

  // ---------------------------------------------------------------------
  // Reading the list

  /** The cells `cs` read so far hold the numbers `done`, linked in order
      and ending in the empty value, all made at or after `base`. */
  predicate ReadSoFar(h: Heap, cs: seq<nat>, done: seq<nat>, base: nat) {
    Linked(h, cs) && |cs| > 0 && h.cells[cs[|cs| - 1]].second == Nil
    && |cs| == |done| && (forall i :: 0 <= i < |cs| ==> h.cells[cs[i]].first == Number(done[i]))
    && base <= |h.cells| && forall i :: 0 <= i < |cs| ==> base <= cs[i]
  }

  /** At the closing bracket the cells read are the list. */
  lemma ItemsAtClose(l: Lexer, h: Heap, cs: seq<nat>, done: seq<nat>, left: Value, base: nat)
    requires Ahead(l, []) && Wf(h) && ReadSoFar(h, cs, done, base) && ValueOk(left, h)
    ensures var o := ReadItems(l, h, cs[0], cs[|cs| - 1], left);
      && o == ReadOut(Advance(l), h, Ok(Pair(cs[0]))) && o.l.isEnd
      && ProperList(h, Pair(cs[0]), |done|)
      && Elements(h, Pair(cs[0]), |done|) == NumVals(done)
  {
    EndAfterClose(l);
    LinkedChain(h, cs);
    assert Elements(h, Pair(cs[0]), |cs|) == NumVals(done);
  }

  /** A number ahead is read into a fresh cell linked after the last. */
  lemma ItemStep(l: Lexer, h: Heap, cs: seq<nat>, done: seq<nat>, ms: seq<nat>, left: Value, base: nat)
    requires Ahead(l, ms) && ms != [] && Wf(h) && ReadSoFar(h, cs, done, base) && ValueOk(left, h)
    ensures var c := |h.cells|;
      var h2 := SetSecond(NewCell(h, Number(ms[0]), Nil), cs[|cs| - 1], Pair(c));
      && ReadSoFar(h2, cs + [c], done + [ms[0]], base)
      && Kept(h, h2, base)
      && Ahead(Advance(l), ms[1..])
      && ReadItems(l, h, cs[0], cs[|cs| - 1], left) == ReadItems(Advance(l), h2, cs[0], c, left)
  {
    var e := ReadExpr(l, h);
    assert e == ReadOut(Advance(l), h, Ok(Number(ms[0])));
    LinkStep(h, e, cs, base);
    var c := |h.cells|;
    var h2 := SetSecond(NewCell(h, Number(ms[0]), Nil), cs[|cs| - 1], Pair(c));
    var cs2 := cs + [c];
    var done2 := done + [ms[0]];
    forall i | 0 <= i < |cs2|
      ensures h2.cells[cs2[i]].first == Number(done2[i])
    {
      if i < |cs| {
        assert h2.cells[cs[i]].first == h.cells[cs[i]].first;
      }
    }
    AdvanceAhead(l, ms);
  }

  lemma MoveFirst(done: seq<nat>, ms: seq<nat>)
    requires ms != []
    ensures (done + [ms[0]]) + ms[1..] == done + ms
  {
    assert ms == [ms[0]] + ms[1..];
  }

  /** The read ended at the end of the input with the proper list from
      cell `first`, whose elements are `vals`. */
  predicate ReadAsList(o: ReadOut, first: nat, vals: seq<Value>) {
    o.r == Ok(Pair(first)) && o.l.isEnd && Wf(o.h) && first < |o.h.cells|
    && ProperList(o.h, Pair(first), |vals|) && Elements(o.h, Pair(first), |vals|) == vals
  }

  /** The loop of `ReadList` over the numbers `ms` still ahead, with the
      cells `cs` already read holding `done`: it links one fresh cell per
      number after the last one and answers the first cell at the closing
      bracket, the end of the input. */
  lemma {:induction false} ReadItemsOfNumbers(l: Lexer, h: Heap, cs: seq<nat>, done: seq<nat>, ms: seq<nat>, left: Value, base: nat)
    requires Ahead(l, ms) && Wf(h) && ReadSoFar(h, cs, done, base) && ValueOk(left, h)
    ensures var o := ReadItems(l, h, cs[0], cs[|cs| - 1], left);
      ReadAsList(o, cs[0], NumVals(done + ms)) && Kept(h, o.h, base)
    decreases |ms|
  {
    if ms == [] {
      ItemsAtClose(l, h, cs, done, left, base);
      assert done + ms == done;
    } else {
      ItemStep(l, h, cs, done, ms, left, base);
      var c := |h.cells|;
      var h2 := SetSecond(NewCell(h, Number(ms[0]), Nil), cs[|cs| - 1], Pair(c));
      var cs2 := cs + [c];
      assert cs2[0] == cs[0] && cs2[|cs2| - 1] == c;
      ReadItemsOfNumbers(Advance(l), h2, cs2, done + [ms[0]], ms[1..], left, base);
      MoveFirst(done, ms);
      var o := ReadItems(Advance(l), h2, cs[0], c, left);
      KeptTrans(h, h2, o.h, base);
    }
  }

  /** The text the printer writes for a list of the numbers `ns`. */
  function ListText(ns: seq<nat>): (s: string)
    requires ns != []
  {
    "(" + NatToString(ns[0]) + SpacedNums(ns[1..]) + ")"
  }

  /** The numbers of `xs`, all non-negative numbers. */
  function Naturals(xs: seq<Value>): (ns: seq<nat>)
    requires forall i :: 0 <= i < |xs| ==> xs[i].Number? && xs[i].n >= 0
    ensures NumVals(ns) == xs
  {
    seq(|xs|, i requires 0 <= i < |xs| => xs[i].n as nat)
  }

  /** A proper list of `n > 0` non-negative numbers prints as `ListText`. */
  lemma RenderNumberList(h: Heap, v: Value, n: nat)
    requires Wf(h) && ValueOk(v, h) && ProperList(h, v, n) && n > 0
    requires forall i :: 0 <= i < n ==> Elements(h, v, n)[i].Number? && Elements(h, v, n)[i].n >= 0
    ensures Render(h, v) == Ok(ListText(Naturals(Elements(h, v, n))))
  {
    var xs := Elements(h, v, n);
    var ns := Naturals(xs);
    assert xs[1..] == NumVals(ns[1..]);
    RenderFlatList(h, v, n, Nil);
    SpacedOfNumbers(ns[1..]);
  }

  /** The first number of `ListText(ns)` is read into a fresh cell, and the
      cursor is then at the second number. */
  lemma ReadFirstOfText(h: Heap, ns: seq<nat>)
    requires Wf(h) && ns != []
    ensures var l2 := Advance(Start(ListText(ns)));
      && Ahead(l2, ns) && Ahead(Advance(l2), ns[1..])
      && ReadExpr(Start(ListText(ns)), h)
         == ReadItems(Advance(l2), NewCell(h, Number(ns[0]), Nil), |h.cells|, |h.cells|, Number(ns[0]))
  {
    var d := NatToString(ns[0]);
    var rest := SpacedNums(ns[1..]) + ")";
    var s := ListText(ns);
    assert s[0] == '(' && SkipBlanks(s, 0) == 0;
    var l1 := Start(s);
    assert l1 == Lexer(s, 1, BracketToken(Open), true, false);
    assert s[1..] == d + rest;
    DigitsReadBack(l1, ns[0], rest);
    var l2 := Advance(l1);
    assert Ahead(l2, ns);
    assert ReadExpr(l1, h) == ReadList(l2, h);
    AdvanceAhead(l2, ns);
  }

  /** One fresh cell holding `k` starts the cells read. */
  lemma FirstCellRead(h: Heap, k: nat)
    requires Wf(h)
    ensures ReadSoFar(NewCell(h, Number(k), Nil), [|h.cells|], [k], |h.cells|)
    ensures Kept(h, NewCell(h, Number(k), Nil), |h.cells|)
  {
  }

  /** Reading `ListText(ns)` from a fresh cursor gives the list of `ns` in
      fresh cells from `|h.cells|` on, with the older cells kept. */
  lemma ReadListText(h: Heap, ns: seq<nat>)
    requires Wf(h) && ns != []
    ensures var o := ReadExpr(Start(ListText(ns)), h);
      ReadAsList(o, |h.cells|, NumVals(ns)) && Kept(h, o.h, |h.cells|)
  {
    var c := |h.cells|;
    var h1 := NewCell(h, Number(ns[0]), Nil);
    var l2 := Advance(Start(ListText(ns)));
    ReadFirstOfText(h, ns);
    FirstCellRead(h, ns[0]);
    ReadItemsOfNumbers(Advance(l2), h1, [c], [ns[0]], ns[1..], Number(ns[0]), c);
    assert [ns[0]] + ns[1..] == ns;
    var o := ReadItems(Advance(l2), h1, c, c, Number(ns[0]));
    KeptTrans(h, h1, o.h, c);
  }

  /** `()` reads back as the empty value. */
  lemma ReadEmptyList(h: Heap)
    requires Wf(h)
    ensures Interpreter.Command(h, "()") == Outcome(h, Ok(Nil))
  {
    var s := "()";
    assert SkipBlanks(s, 0) == 0 && SkipBlanks(s, 1) == 1;
    assert Start(s) == Lexer(s, 1, BracketToken(Open), true, false);
    assert Advance(Start(s)) == Lexer(s, 2, BracketToken(Close), false, false);
    assert ReadExpr(Start(s), h) == ReadList(Advance(Start(s)), h);
  }

  /** The text `PrintTo` writes for a proper list of non-negative numbers,
      each within the tokenizer's `int`, read back by `ReadCommand`, is a
      proper list with the same elements in the same order: `(1 2 3)` and
      `()` read as they print.  The list read is made of fresh cells, and
      the cells already in the store are kept (parser.cpp:104-123, 197-283,
      scheme.cpp:59-68). */
  lemma NumberListRoundTrip(h: Heap, v: Value, n: nat)
    requires Wf(h) && ValueOk(v, h) && ProperList(h, v, n)
    requires forall i :: 0 <= i < n ==> Elements(h, v, n)[i].Number? && 0 <= Elements(h, v, n)[i].n <= INT_MAX
    ensures Render(h, v).Ok?
    ensures var o := Interpreter.Command(h, Render(h, v).value);
      && o.r.Ok? && ValueOk(o.r.value, o.h)
      && ProperList(o.h, o.r.value, n)
      && Elements(o.h, o.r.value, n) == Elements(h, v, n)
      && |h.cells| <= |o.h.cells| && o.h.cells[..|h.cells|] == h.cells
      && (n > 0 ==> o.r.value.Pair? && o.r.value.cell >= |h.cells|)
  {
    if n == 0 {
      assert v == Nil;
      assert Render(h, v) == Ok("()");
      ReadEmptyList(h);
    } else {
      var ns := Naturals(Elements(h, v, n));
      RenderNumberList(h, v, n);
      ReadListText(h, ns);
      var o := ReadExpr(Start(ListText(ns)), h);
      assert o.h.cells[..|h.cells|] == h.cells;
    }
  }
}
