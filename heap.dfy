/** The objects with identity: cons cells (parser.cpp:125-143), scopes
    (scope.cpp) and lambda closures (scheme/functions.cpp:548-554), held in a
    store indexed by handle.  A handle is the position of the object in its
    sequence; objects are only ever added, never removed.  This module gives
    the store as a value with the operations the source performs on cells and
    closures (scope.dfy has those on scopes); the class in store.dfy performs
    them in place. */
module Heaps {
  import opened Base
  import opened Objects

  /** A `Cell`: its `first_` and `second_` fields. */
  datatype CellRec = CellRec(first: Value, second: Value)

  /** A `Scope`: its `variables_` map and its `previous_` pointer. */
  datatype Frame = Frame(vars: map<string, Value>, parent: Option<nat>)

  /** A `LambdaClosure`: `variables_`, `body_` and `local_scope_`. */
  datatype ClosureRec = ClosureRec(params: seq<string>, body: seq<Value>, frame: nat)

  datatype Heap = Heap(cells: seq<CellRec>, frames: seq<Frame>, closures: seq<ClosureRec>)

  /** A value whose handle, if any, names an object of `h`. */
  predicate ValueOk(v: Value, h: Heap) {
    match v
    case Pair(c) => c < |h.cells|
    case Closure(k) => k < |h.closures|
    case _ => true
  }

  predicate AllOk(vs: seq<Value>, h: Heap) {
    forall i :: 0 <= i < |vs| ==> ValueOk(vs[i], h)
  }

  predicate CellsOk(h: Heap) {
    forall c :: 0 <= c < |h.cells| ==> ValueOk(h.cells[c].first, h) && ValueOk(h.cells[c].second, h)
  }

  /** Every scope was made after its parent, so a parent's handle is smaller
      than its child's: walking `previous_` ends. */
  predicate FramesOk(h: Heap) {
    forall f :: 0 <= f < |h.frames| ==>
      (h.frames[f].parent.Some? ==> h.frames[f].parent.value < f) &&
      (forall x :: x in h.frames[f].vars ==> ValueOk(h.frames[f].vars[x], h))
  }

  predicate ClosuresOk(h: Heap) {
    forall k :: 0 <= k < |h.closures| ==> h.closures[k].frame < |h.frames| && AllOk(h.closures[k].body, h)
  }

  /** Well-formedness of the store: no dangling handle anywhere. */
  predicate Wf(h: Heap) {
    CellsOk(h) && FramesOk(h) && ClosuresOk(h)
  }

  /** `h2` is `h` after some steps: nothing was removed. */
  predicate Grows(h: Heap, h2: Heap) {
    |h.cells| <= |h2.cells| && |h.frames| <= |h2.frames| && |h.closures| <= |h2.closures|
  }

  /** The store after an operation, and the operation's value or the error
      it raised.  Changes made before an error stay in the store. */
  datatype Outcome = Outcome(h: Heap, r: Result<Value>)

  /** What every operation promises: the store stays well formed, nothing is
      removed from it, and a value returned names only objects of the store. */
  predicate Fine(h: Heap, o: Outcome) {
    Wf(o.h) && Grows(h, o.h) && (o.r.Ok? ==> ValueOk(o.r.value, o.h))
  }

  lemma AllOkGrows(vs: seq<Value>, h: Heap, h2: Heap)
    requires AllOk(vs, h) && Grows(h, h2)
    ensures AllOk(vs, h2)
  {
  }

  // ---------------------------------------------------------------------
  // Cells

  /** `std::make_shared<Cell>(a, b)`: the new cell's handle is `|h.cells|`. */
  function NewCell(h: Heap, a: Value, b: Value): (r: Heap)
    requires Wf(h) && ValueOk(a, h) && ValueOk(b, h)
    ensures Wf(r) && Grows(h, r) && |r.cells| == |h.cells| + 1
    ensures r.cells[|h.cells|] == CellRec(a, b)
    ensures r.cells[..|h.cells|] == h.cells && r.frames == h.frames && r.closures == h.closures
  {
    h.(cells := h.cells + [CellRec(a, b)])
  }

  /** `Cell::SetFirst`. */
  function SetFirst(h: Heap, c: nat, v: Value): (r: Heap)
    requires Wf(h) && c < |h.cells| && ValueOk(v, h)
    ensures Wf(r) && Grows(h, r) && Grows(r, h)
    ensures r.cells[c].first == v && r.cells[c].second == h.cells[c].second
    ensures forall d :: 0 <= d < |h.cells| && d != c ==> r.cells[d] == h.cells[d]
    ensures r.frames == h.frames && r.closures == h.closures
  {
    h.(cells := h.cells[c := h.cells[c].(first := v)])
  }

  /** `Cell::SetSecond`. */
  function SetSecond(h: Heap, c: nat, v: Value): (r: Heap)
    requires Wf(h) && c < |h.cells| && ValueOk(v, h)
    ensures Wf(r) && Grows(h, r) && Grows(r, h)
    ensures r.cells[c].second == v && r.cells[c].first == h.cells[c].first
    ensures forall d :: 0 <= d < |h.cells| && d != c ==> r.cells[d] == h.cells[d]
    ensures r.frames == h.frames && r.closures == h.closures
  {
    h.(cells := h.cells[c := h.cells[c].(second := v)])
  }

  // ---------------------------------------------------------------------
  // Closures

  /** `std::make_shared<LambdaClosure>(...)`: the new closure's handle is
      `|h.closures|`. */
  function NewClosure(h: Heap, params: seq<string>, body: seq<Value>, frame: nat): (r: Heap)
    requires Wf(h) && frame < |h.frames| && AllOk(body, h)
    ensures Wf(r) && Grows(h, r) && |r.closures| == |h.closures| + 1
    ensures r.closures[|h.closures|] == ClosureRec(params, body, frame)
    ensures r.closures[..|h.closures|] == h.closures && r.cells == h.cells && r.frames == h.frames
  {
    h.(closures := h.closures + [ClosureRec(params, body, frame)])
  }
}
