/** What the reader of parser.cpp builds (`Read`, `ReadList`,
    parser.cpp:197-283), stated against the chain definitions of lists.dfy:
    a list is a chain of fresh cells in reading order, a proper list unless
    a dot was read, and `'X` is the two-element list `(quote X)`. */
module ReaderFacts {
  import opened Base
  import opened Objects
  import opened Heaps
  import opened Lexing
  import opened Lists
  import opened Reader

  /** The cells below `n` are the same in `h2` as in `h`. */
  predicate Kept(h: Heap, h2: Heap, n: nat) {
    n <= |h.cells| && n <= |h2.cells| && forall c :: 0 <= c < n ==> h2.cells[c] == h.cells[c]
  }

  lemma KeptTrans(h: Heap, h2: Heap, h3: Heap, n: nat)
    requires Kept(h, h2, n) && Kept(h2, h3, n)
    ensures Kept(h, h3, n)
  {
  }

  /** The input has no `.` and the current token is not a dot. */
  predicate DotFree(l: Lexer) {
    (forall k :: 0 <= k < |l.input| ==> l.input[k] != '.') && !l.token.DotToken?
  }

  /** Only a `.` character makes a dot token (tokenizer.h:123-127). */
  lemma AdvanceDotFree(l: Lexer)
    requires Advanceable(l) && forall k :: 0 <= k < |l.input| ==> l.input[k] != '.'
    ensures DotFree(Advance(l))
  {
  }

  // ---------------------------------------------------------------------
  // Reading leaves the cells it found alone

  /** Reading one expression only adds cells: every cell that was there
      before is unchanged.  And a cursor over an input without a dot never
      shows a dot token afterwards. */
  lemma {:induction false} ReadExprSteps(l: Lexer, h: Heap)
    requires LexOk(l) && Wf(h)
    ensures Kept(h, ReadExpr(l, h).h, |h.cells|)
    ensures DotFree(l) ==> DotFree(ReadExpr(l, h).l)
    decreases Remaining(l), 0
  {
    var l1 := Advance(l);
    if DotFree(l) {
      AdvanceDotFree(l);
    }
    match l.token
    case BracketToken(b) =>
      if b == Open {
        ReadListSteps(l1, h);
      }
    case QuoteToken =>
      ReadExprSteps(l1, h);
      var inner := ReadExpr(l1, h);
      if inner.r.Ok? {
        var h1 := NewCell(inner.h, inner.r.value, Nil);
        var h2 := NewCell(h1, Symbol("quote"), Pair(|inner.h.cells|));
        KeptTrans(h, inner.h, h1, |h.cells|);
        KeptTrans(h, h1, h2, |h.cells|);
      }
    case _ =>
  }

  lemma {:induction false} ReadListSteps(l: Lexer, h: Heap)
    requires LexOk(l) && Wf(h)
    ensures Kept(h, ReadList(l, h).h, |h.cells|)
    ensures DotFree(l) ==> DotFree(ReadList(l, h).l)
    decreases Remaining(l), 1
  {
    if DotFree(l) {
      AdvanceDotFree(l);
    }
    if !l.isEnd && !IsBracketClose(l.token) {
      var left := ReadExpr(l, h);
      ReadExprSteps(l, h);
      if left.r.Ok? {
        var h1 := NewCell(left.h, left.r.value, Nil);
        KeptTrans(h, left.h, h1, |h.cells|);
        ReadItemsSteps(left.l, h1, |left.h.cells|, |left.h.cells|, left.r.value, |h.cells|);
        KeptTrans(h, h1, ReadList(l, h).h, |h.cells|);
      }
    }
  }

  lemma {:induction false} ReadItemsSteps(l: Lexer, h: Heap, result: nat, previous: nat, left: Value, base: nat)
    requires LexOk(l) && Wf(h) && result < |h.cells| && previous < |h.cells| && ValueOk(left, h)
    requires base <= previous
    ensures Kept(h, ReadItems(l, h, result, previous, left).h, base)
    ensures DotFree(l) ==> DotFree(ReadItems(l, h, result, previous, left).l)
    decreases Remaining(l), 2
  {
    var o := ReadItems(l, h, result, previous, left);
    if DotFree(l) {
      AdvanceDotFree(l);
    }
    if !IsDot(l.token) && !IsBracketClose(l.token) && !l.isEnd {
      var e := ReadExpr(l, h);
      ReadExprSteps(l, h);
      if e.r.Ok? {
        var h1 := NewCell(e.h, e.r.value, Nil);
        var h2 := SetSecond(h1, previous, Pair(|e.h.cells|));
        KeptTrans(h, e.h, h1, base);
        KeptTrans(h, h1, h2, base);
        ReadItemsSteps(e.l, h2, result, |e.h.cells|, left, base);
        KeptTrans(h, h2, o.h, base);
      }
    } else if !IsBracketClose(l.token) && !l.isEnd {
      ReadTailSteps(l, h, result, previous, left, base);
    }
  }

  lemma {:induction false} ReadTailSteps(l: Lexer, h: Heap, result: nat, previous: nat, left: Value, base: nat)
    requires LexOk(l) && Wf(h) && result < |h.cells| && previous < |h.cells| && ValueOk(left, h)
    requires !l.isEnd && base <= previous
    ensures Kept(h, ReadTail(l, h, result, previous, left).h, base)
    ensures DotFree(l) ==> DotFree(ReadTail(l, h, result, previous, left).l)
    decreases Remaining(l), 1
  {
    if DotFree(l) {
      AdvanceDotFree(l);
      AdvanceDotFree(Advance(l));
    }
    var right := ReadExpr(Advance(l), h);
    ReadExprSteps(Advance(l), h);
    if right.r.Ok? && !right.l.isEnd {
      if DotFree(l) {
        AdvanceDotFree(right.l);
      }
      if IsBracketClose(right.l.token) {
        if previous == result {
          var h3 := NewCell(right.h, left, right.r.value);
          KeptTrans(h, right.h, h3, base);
        } else {
          var h3 := SetSecond(right.h, previous, right.r.value);
          KeptTrans(h, right.h, h3, base);
        }
      }
    }
  }

  // ---------------------------------------------------------------------
  // The shape of a list read

  /** `cs` are cells in allocation order, each the `second` of the one
      before. */
  predicate Linked(h: Heap, cs: seq<nat>) {
    (forall i :: 0 <= i < |cs| ==> cs[i] < |h.cells|)
    && (forall i, j :: 0 <= i < j < |cs| ==> cs[i] < cs[j])
    && (forall i :: 0 <= i < |cs| - 1 ==> h.cells[cs[i]].second == Pair(cs[i + 1]))
  }

  /** Linked cells make a chain that ends at the `second` of the last one,
      with their `first` fields as elements. */
  lemma {:induction false} LinkedChain(h: Heap, cs: seq<nat>)
    requires Wf(h) && Linked(h, cs) && |cs| > 0
    ensures Drop(h, Pair(cs[0]), |cs|) == Some(h.cells[cs[|cs| - 1]].second)
    ensures Elements(h, Pair(cs[0]), |cs|) == seq(|cs|, i requires 0 <= i < |cs| => h.cells[cs[i]].first)
    decreases |cs|
  {
    if |cs| > 1 {
      LinkedChain(h, cs[1..]);
      assert Drop(h, Pair(cs[0]), |cs|) == Drop(h, Pair(cs[1]), |cs| - 1);
    }
  }

  /** One more item read links a fresh cell after the last one. */
  lemma LinkStep(h: Heap, e: ReadOut, cs: seq<nat>, base: nat)
    requires Wf(h) && Linked(h, cs) && |cs| > 0 && e.r.Ok?
    requires Wf(e.h) && Grows(h, e.h) && ValueOk(e.r.value, e.h) && Kept(h, e.h, |h.cells|)
    requires forall i :: 0 <= i < |cs| ==> base <= cs[i]
    ensures var h2 := SetSecond(NewCell(e.h, e.r.value, Nil), cs[|cs| - 1], Pair(|e.h.cells|));
      && Linked(h2, cs + [|e.h.cells|])
      && h2.cells[|e.h.cells|].second == Nil
      && forall i :: 0 <= i < |cs| + 1 ==> base <= (cs + [|e.h.cells|])[i]
  {
    var h1 := NewCell(e.h, e.r.value, Nil);
    var h2 := SetSecond(h1, cs[|cs| - 1], Pair(|e.h.cells|));
    var cs2 := cs + [|e.h.cells|];
    forall i | 0 <= i < |cs2| - 1
      ensures h2.cells[cs2[i]].second == Pair(cs2[i + 1])
    {
      if i < |cs| - 1 {
        assert h2.cells[cs[i]] == h.cells[cs[i]];
      }
    }
  }

  /** `v` is the first of the linked cells `cs`, all made at or after
      `base`. */
  predicate FreshChain(h: Heap, v: Value, cs: seq<nat>, base: nat) {
    |cs| > 0 && Linked(h, cs) && v == Pair(cs[0]) && forall i :: 0 <= i < |cs| ==> base <= cs[i]
  }

  /** The dotted tail keeps the chain: it becomes the `second` of the last
      cell, or of a fresh cell in place of a lone first one. */
  lemma ReadTailShape(l: Lexer, h: Heap, result: nat, previous: nat, left: Value, cs: seq<nat>, base: nat)
    requires LexOk(l) && Wf(h) && result < |h.cells| && previous < |h.cells| && ValueOk(left, h)
    requires !l.isEnd && FreshChain(h, Pair(result), cs, base) && cs[|cs| - 1] == previous
    ensures var o := ReadTail(l, h, result, previous, left);
      o.r.Ok? ==> exists cs2: seq<nat> :: FreshChain(o.h, o.r.value, cs2, base)
  {
    var o := ReadTail(l, h, result, previous, left);
    if o.r.Ok? {
      var right := ReadExpr(Advance(l), h);
      assert right.r.Ok?;
      ReadExprSteps(Advance(l), h);
      if previous == result {
        var c := |right.h.cells|;
        assert o.h == NewCell(right.h, left, right.r.value) && o.r.value == Pair(c);
        assert FreshChain(o.h, o.r.value, [c], base);
      } else {
        assert o.h == SetSecond(right.h, previous, right.r.value);
        forall i | 0 <= i < |cs| - 1
          ensures o.h.cells[cs[i]].second == Pair(cs[i + 1])
        {
          assert o.h.cells[cs[i]] == h.cells[cs[i]];
        }
        assert FreshChain(o.h, o.r.value, cs, base);
      }
    }
  }

  /** The loop of `ReadList` keeps a chain of fresh cells in reading order
      from the first cell to `previous`; when it ends at `)` the last
      `second` is the empty value, and only a dotted tail puts anything
      else there. */
  lemma {:induction false} ReadItemsShape(l: Lexer, h: Heap, result: nat, previous: nat, left: Value, cs: seq<nat>, base: nat)
    requires LexOk(l) && Wf(h) && result < |h.cells| && previous < |h.cells| && ValueOk(left, h)
    requires FreshChain(h, Pair(result), cs, base) && cs[|cs| - 1] == previous && h.cells[previous].second == Nil
    ensures var o := ReadItems(l, h, result, previous, left);
      o.r.Ok? ==>
        exists cs2: seq<nat> ::
          FreshChain(o.h, o.r.value, cs2, base) && (DotFree(l) ==> o.h.cells[cs2[|cs2| - 1]].second == Nil)
    decreases Remaining(l)
  {
    var o := ReadItems(l, h, result, previous, left);
    if !IsDot(l.token) && !IsBracketClose(l.token) && !l.isEnd {
      var e := ReadExpr(l, h);
      ReadExprSteps(l, h);
      if e.r.Ok? {
        LinkStep(h, e, cs, base);
        var h2 := SetSecond(NewCell(e.h, e.r.value, Nil), previous, Pair(|e.h.cells|));
        assert o == ReadItems(e.l, h2, result, |e.h.cells|, left);
        ReadItemsShape(e.l, h2, result, |e.h.cells|, left, cs + [|e.h.cells|], base);
      }
    } else if IsBracketClose(l.token) {
      assert o.r == Ok(Pair(result)) && o.h == h;
      assert FreshChain(o.h, o.r.value, cs, base);
    } else if !l.isEnd {
      assert o == ReadTail(l, h, result, previous, left);
      ReadTailShape(l, h, result, previous, left, cs, base);
    }
  }

  /** `ReadList` after `(` (parser.cpp:225-283): a list that is not `()` is
      a chain of cells all made while reading it, one per expression and in
      reading order; without a dot in the input it is a proper list. */
  lemma ReadListShape(l: Lexer, h: Heap)
    requires LexOk(l) && Wf(h)
    ensures var o := ReadList(l, h);
      o.r.Ok? && o.r.value != Nil ==>
        exists cs: seq<nat> ::
          FreshChain(o.h, o.r.value, cs, |h.cells|) && (DotFree(l) ==> ProperList(o.h, o.r.value, |cs|))
  {
    var o := ReadList(l, h);
    if !l.isEnd && !IsBracketClose(l.token) {
      var left := ReadExpr(l, h);
      if left.r.Ok? {
        ReadExprSteps(l, h);
        var c := |left.h.cells|;
        var h1 := NewCell(left.h, left.r.value, Nil);
        assert FreshChain(h1, Pair(c), [c], |h.cells|);
        ReadItemsShape(left.l, h1, c, c, left.r.value, [c], |h.cells|);
        if o.r.Ok? {
          var cs: seq<nat> :| FreshChain(o.h, o.r.value, cs, |h.cells|)
            && (DotFree(left.l) ==> o.h.cells[cs[|cs| - 1]].second == Nil);
          LinkedChain(o.h, cs);
        }
      }
    }
  }

  /** `'X` reads as the two-element list `(quote X)` of two fresh cells
      (parser.cpp:213-215). */
  lemma QuoteReadsAsList(l: Lexer, h: Heap)
    requires LexOk(l) && Wf(h) && l.token == QuoteToken
    ensures var inner := ReadExpr(Advance(l), h);
      var o := ReadExpr(l, h);
      && (inner.r.Err? ==> o.r == inner.r)
      && (inner.r.Ok? ==>
            && o.l == inner.l && o.r.Ok?
            && ProperList(o.h, o.r.value, 2)
            && Elements(o.h, o.r.value, 2) == [Symbol("quote"), inner.r.value]
            && o.r.value.cell >= |h.cells|)
  {
    var inner := ReadExpr(Advance(l), h);
    var o := ReadExpr(l, h);
    if inner.r.Ok? {
      var n := |inner.h.cells|;
      assert o.r.value == Pair(n + 1);
      assert o.h.cells[n + 1] == CellRec(Symbol("quote"), Pair(n));
      assert o.h.cells[n] == CellRec(inner.r.value, Nil);
      assert Drop(o.h, o.r.value, 2) == Drop(o.h, Pair(n), 1);
      assert Elements(o.h, o.r.value, 2) == [Symbol("quote")] + Elements(o.h, Pair(n), 1);
    }
  }
}
