/** What the printer writes for a list (parser.cpp:104-123): the elements
    separated by spaces inside brackets, and ` . ` before a tail that is
    neither a cell nor the empty value. */
module PrinterFacts {
  import opened Base
  import opened Objects
  import opened Heaps
  import opened Lists
  import opened Printer

  /** Each element's text after a space. */
  function Spaced(xs: seq<Value>): (s: string)
    requires forall i :: 0 <= i < |xs| ==> !xs[i].Pair?
    ensures xs == [] ==> s == ""
  {
    if xs == [] then "" else " " + Atom(xs[0]) + Spaced(xs[1..])
  }

  /** The text of the end of a chain: `)`, or ` . `, the tail and `)`. */
  function Closing(tail: Value): (s: string)
    requires !tail.Pair?
    ensures tail == Nil <==> s == ")"
  {
    if tail == Nil then ")" else " . " + Atom(tail) + ")"
  }

  /** The rest of a chain of cells holding no cell. */
  lemma {:induction false} RenderChainOfAtoms(h: Heap, v: Value, n: nat, tail: Value, b: nat, xs: seq<Value>)
    requires Wf(h) && ValueOk(v, h) && ChainTo(h, v, n, tail) && n <= b
    requires xs == Elements(h, v, n) && forall i :: 0 <= i < |xs| ==> !xs[i].Pair?
    ensures RenderChain(h, v, b) == Ok(Spaced(xs) + Closing(tail))
    decreases n
  {
    if n == 0 {
      assert v == tail;
      assert Spaced(xs) + Closing(tail) == Closing(tail);
    } else {
      var c := v.cell;
      var rest := h.cells[c].second;
      assert xs == [h.cells[c].first] + Elements(h, rest, n - 1);
      assert xs[1..] == Elements(h, rest, n - 1);
      RenderChainOfAtoms(h, rest, n - 1, tail, b - 1, xs[1..]);
      assert RenderWithin(h, h.cells[c].first, b - 1) == Ok(Atom(xs[0]));
      assert RenderChain(h, v, b) == Cat(" " + Atom(xs[0]), RenderChain(h, rest, b - 1));
      assert " " + Atom(xs[0]) + (Spaced(xs[1..]) + Closing(tail)) == Spaced(xs) + Closing(tail);
    }
  }

  /** A list of `n > 0` elements none of which is a cell prints as `(`, the
      first element, a space before each further one, then `)` for a proper
      list or ` . tail)` for a chain ending in another value: `(1 2)`,
      `(1 . 2)`. */
  lemma RenderFlatList(h: Heap, v: Value, n: nat, tail: Value)
    requires Wf(h) && ValueOk(v, h) && ChainTo(h, v, n, tail) && n > 0
    requires forall i :: 0 <= i < n ==> !Elements(h, v, n)[i].Pair?
    ensures var xs := Elements(h, v, n);
      Render(h, v) == Ok("(" + Atom(xs[0]) + Spaced(xs[1..]) + Closing(tail))
  {
    var xs := Elements(h, v, n);
    var c := v.cell;
    var rest := h.cells[c].second;
    ChainFitsStore(h, v, n, tail);
    assert xs == [h.cells[c].first] + Elements(h, rest, n - 1);
    assert xs[1..] == Elements(h, rest, n - 1);
    RenderChainOfAtoms(h, rest, n - 1, tail, |h.cells| - 1, xs[1..]);
    assert RenderWithin(h, h.cells[c].first, |h.cells| - 1) == Ok(Atom(xs[0]));
    assert Render(h, v) == Cat("(" + Atom(xs[0]), RenderChain(h, rest, |h.cells| - 1));
    assert "(" + Atom(xs[0]) + (Spaced(xs[1..]) + Closing(tail)) == "(" + Atom(xs[0]) + Spaced(xs[1..]) + Closing(tail);
  }

  // ---------------------------------------------------------------------
  // Printing fails only on a cycle

  /** Cell `d` is the first or the second field of cell `c`. */
  predicate Step(h: Heap, c: nat, d: nat) {
    c < |h.cells| && (h.cells[c].first == Pair(d) || h.cells[c].second == Pair(d))
  }

  /** `cs` is a walk through cells from `start`, each one a field of the one
      before it. */
  predicate IsPath(h: Heap, start: nat, cs: seq<nat>) {
    |cs| > 0 && cs[0] == start && forall i :: 0 <= i < |cs| - 1 ==> Step(h, cs[i], cs[i + 1])
  }

  /** The walk `cs` from `start` ends at a cell it passed before, at `i`:
      the cells reachable from `start` contain a cycle. */
  predicate ReturnsTo(h: Heap, start: nat, cs: seq<nat>, i: nat) {
    IsPath(h, start, cs) && i < |cs| - 1 && cs[i] == cs[|cs| - 1]
  }

  lemma PathCons(h: Heap, c: nat, cs: seq<nat>)
    requires |cs| > 0 && Step(h, c, cs[0]) && IsPath(h, cs[0], cs)
    ensures IsPath(h, c, [c] + cs)
  {
    var ds := [c] + cs;
    forall i | 0 <= i < |ds| - 1 ensures Step(h, ds[i], ds[i + 1]) {
      if i > 0 {
        assert ds[i] == cs[i - 1] && ds[i + 1] == cs[i];
      }
    }
  }

  /** The walk along which `RenderWithin` ran out of its bound `b`: `b + 1`
      cells, the first being `v`. */
  function FailPath(h: Heap, v: Value, b: nat): (cs: seq<nat>)
    requires Wf(h) && ValueOk(v, h) && RenderWithin(h, v, b).Err?
    ensures v.Pair? && |cs| == b + 1 && IsPath(h, v.cell, cs)
    ensures forall i :: 0 <= i < |cs| ==> cs[i] < |h.cells|
    decreases b, 0
  {
    var c := v.cell;
    if b == 0 then [c]
    else if RenderWithin(h, h.cells[c].first, b - 1).Err? then
      var rest := FailPath(h, h.cells[c].first, b - 1);
      PathCons(h, c, rest);
      [c] + rest
    else
      var rest := ChainFailPath(h, h.cells[c].second, b - 1);
      PathCons(h, c, rest);
      [c] + rest
  }

  /** The same for the rest of a chain, from `next`. */
  function ChainFailPath(h: Heap, next: Value, b: nat): (cs: seq<nat>)
    requires Wf(h) && ValueOk(next, h) && RenderChain(h, next, b).Err?
    ensures next.Pair? && |cs| == b + 1 && IsPath(h, next.cell, cs)
    ensures forall i :: 0 <= i < |cs| ==> cs[i] < |h.cells|
    decreases b, 1
  {
    var c := next.cell;
    if b == 0 then [c]
    else if RenderWithin(h, h.cells[c].first, b - 1).Err? then
      var rest := FailPath(h, h.cells[c].first, b - 1);
      PathCons(h, c, rest);
      [c] + rest
    else
      var rest := ChainFailPath(h, h.cells[c].second, b - 1);
      PathCons(h, c, rest);
      [c] + rest
  }

  /** More handles than the store has cells repeat one. */
  lemma Pigeonhole(cs: seq<nat>, m: nat) returns (i: nat, j: nat)
    requires |cs| > m && forall k :: 0 <= k < |cs| ==> cs[k] < m
    ensures i < j < |cs| && cs[i] == cs[j]
  {
    if forall x, y :: 0 <= x < y < |cs| ==> cs[x] != cs[y] {
      DistinctCard(cs);
      HandlesBelow(set k | 0 <= k < |cs| :: cs[k], m);
      assert false;
    }
    i, j :| 0 <= i < j < |cs| && cs[i] == cs[j];
  }

  /** Printing fails only on a value from which a walk along `first` and
      `second` fields comes back to a cell it passed: the text of any value
      whose reachable cells hold no cycle is printed (printer.cpp:3-10,
      parser.cpp:104-123), and the source recurses forever exactly where
      the model runs out of its bound. */
  lemma RenderFailsOnlyOnCycles(h: Heap, v: Value)
    requires Wf(h) && ValueOk(v, h) && Render(h, v).Err?
    ensures v.Pair? && exists cs, i :: ReturnsTo(h, v.cell, cs, i)
  {
    var cs := FailPath(h, v, |h.cells|);
    var i, j := Pigeonhole(cs, |h.cells|);
    var ds := cs[..j + 1];
    assert IsPath(h, v.cell, ds) by {
      forall k | 0 <= k < |ds| - 1 ensures Step(h, ds[k], ds[k + 1]) {
        assert ds[k] == cs[k] && ds[k + 1] == cs[k + 1];
      }
    }
    assert ReturnsTo(h, v.cell, ds, i);
  }
}
