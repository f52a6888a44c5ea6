/** Chains of cells: `ToVector` (parser.cpp:146-162) and the definitions the
    list operations are specified against.  A walk along `second` fields
    that has taken more steps than the store has cells has visited some cell
    twice, so the chain is cyclic and the source never returns; the model
    answers `OutOfFuel` there. */
module Lists {
  import opened Base
  import opened Objects
  import opened Heaps

  /** The value reached from `v` by `k` steps along `second` fields, or
      `None` when a non-pair is met before the `k`-th step. */
  function Drop(h: Heap, v: Value, k: nat): (r: Option<Value>)
    requires Wf(h) && ValueOk(v, h)
    ensures r.Some? ==> ValueOk(r.value, h)
    ensures k == 0 ==> r == Some(v)
    decreases k
  {
    if k == 0 then Some(v)
    else match v
      case Pair(c) => Drop(h, h.cells[c].second, k - 1)
      case _ => None
  }

  /** `v` is a chain of `n` cells whose last `second` is `tail`, a non-pair. */
  predicate ChainTo(h: Heap, v: Value, n: nat, tail: Value)
    requires Wf(h) && ValueOk(v, h)
  {
    Drop(h, v, n) == Some(tail) && !tail.Pair?
  }

  /** `v` is a proper list of `n` elements. */
  predicate ProperList(h: Heap, v: Value, n: nat)
    requires Wf(h) && ValueOk(v, h)
  {
    ChainTo(h, v, n, Nil)
  }

  /** The `first` fields of the first `n` cells of the chain from `v`. */
  function Elements(h: Heap, v: Value, n: nat): (xs: seq<Value>)
    requires Wf(h) && ValueOk(v, h) && Drop(h, v, n).Some?
    ensures |xs| == n && AllOk(xs, h)
    decreases n
  {
    if n == 0 then []
    else
      var c := v.cell;
      [h.cells[c].first] + Elements(h, h.cells[c].second, n - 1)
  }

  /** `ToVector`: the elements of a chain in order, with a final non-pair
      tail other than the empty value appended as one more element. */
  function ToVector(h: Heap, v: Value): (r: Result<seq<Value>>)
    requires Wf(h) && ValueOk(v, h)
    ensures r.Ok? ==> AllOk(r.value, h)
    ensures r.Err? ==> r.error == OutOfFuel
  {
    ToVectorWithin(h, v, |h.cells|)
  }

  /** `ToVector` allowed `bound` more cells. */
  function ToVectorWithin(h: Heap, v: Value, bound: nat): (r: Result<seq<Value>>)
    requires Wf(h) && ValueOk(v, h)
    ensures r.Ok? ==> AllOk(r.value, h)
    ensures r.Err? ==> r.error == OutOfFuel
    decreases bound
  {
    match v
    case Nil => Ok([])
    case Pair(c) =>
      if bound == 0 then Err(OutOfFuel)
      else
        var rest := ToVectorWithin(h, h.cells[c].second, bound - 1);
        if rest.Err? then rest else Ok([h.cells[c].first] + rest.value)
    case _ => Ok([v])
  }

  // ---------------------------------------------------------------------
  // A chain that ends is no longer than the store

  /** Walking `a` steps and then `k` more is walking `a + k` steps. */
  lemma {:induction false} DropAdd(h: Heap, v: Value, a: nat, k: nat)
    requires Wf(h) && ValueOk(v, h) && Drop(h, v, a).Some?
    ensures Drop(h, v, a + k) == Drop(h, Drop(h, v, a).value, k)
    decreases a
  {
    if a > 0 {
      DropAdd(h, h.cells[v.cell].second, a - 1, k);
    }
  }

  /** Every step before the end of a chain is at a pair. */
  lemma {:induction false} DropBeforeIsPair(h: Heap, v: Value, n: nat, i: nat)
    requires Wf(h) && ValueOk(v, h) && Drop(h, v, n).Some? && i < n
    ensures Drop(h, v, i).Some? && Drop(h, v, i).value.Pair?
    decreases i
  {
    if i > 0 {
      DropBeforeIsPair(h, h.cells[v.cell].second, n - 1, i - 1);
    }
  }

  /** The cells of a chain that ends at a non-pair are pairwise distinct. */
  lemma ChainCellsDistinct(h: Heap, v: Value, n: nat, tail: Value, i: nat, j: nat)
    requires Wf(h) && ValueOk(v, h) && ChainTo(h, v, n, tail) && i < j < n
    ensures Drop(h, v, i).Some? && Drop(h, v, j).Some?
    ensures Drop(h, v, i) != Drop(h, v, j)
  {
    DropBeforeIsPair(h, v, n, i);
    DropBeforeIsPair(h, v, n, j);
    if Drop(h, v, i) == Drop(h, v, j) {
      var k := n - j;
      DropAdd(h, v, i, k);
      DropAdd(h, v, j, k);
      DropBeforeIsPair(h, v, n, i + k);
      assert false;
    }
  }

  /** A set of handles below `m` has at most `m` members. */
  lemma {:induction false} HandlesBelow(s: set<nat>, m: nat)
    requires forall x :: x in s ==> x < m
    ensures |s| <= m
    decreases m
  {
    if m > 0 {
      HandlesBelow(s - {m - 1}, m - 1);
    } else {
      assert s == {};
    }
  }

  /** The handles of the first `n` cells of a chain. */
  function Spine(h: Heap, v: Value, n: nat): (cs: seq<nat>)
    requires Wf(h) && ValueOk(v, h) && Drop(h, v, n).Some?
    ensures |cs| == n
    ensures forall i :: 0 <= i < n ==> cs[i] < |h.cells|
    ensures forall i :: 0 <= i < n ==> Drop(h, v, i) == Some(Pair(cs[i]))
    decreases n
  {
    if n == 0 then []
    else
      var c := v.cell;
      var rest := Spine(h, h.cells[c].second, n - 1);
      assert forall i :: 1 <= i < n ==> Drop(h, v, i) == Drop(h, h.cells[c].second, i - 1);
      [c] + rest
  }

  /** Distinct elements of a sequence make a set of the same size. */
  lemma {:induction false} DistinctCard(cs: seq<nat>)
    requires forall i, j :: 0 <= i < j < |cs| ==> cs[i] != cs[j]
    ensures |set i | 0 <= i < |cs| :: cs[i]| == |cs|
  {
    if |cs| > 0 {
      var init := cs[..|cs| - 1];
      DistinctCard(init);
      var s0 := set i | 0 <= i < |init| :: init[i];
      var s1 := set i | 0 <= i < |cs| :: cs[i];
      assert s1 == s0 + {cs[|cs| - 1]};
      assert cs[|cs| - 1] !in s0;
    }
  }

  /** A chain that ends at a non-pair has at most as many cells as the store:
      the bound `ToVector`, `list?` and printing walk within is never hit
      by a chain that ends. */
  lemma ChainFitsStore(h: Heap, v: Value, n: nat, tail: Value)
    requires Wf(h) && ValueOk(v, h) && ChainTo(h, v, n, tail)
    ensures n <= |h.cells|
  {
    var cs := Spine(h, v, n);
    forall i, j | 0 <= i < j < n ensures cs[i] != cs[j] {
      ChainCellsDistinct(h, v, n, tail, i, j);
    }
    DistinctCard(cs);
    HandlesBelow(set i | 0 <= i < |cs| :: cs[i], |h.cells|);
  }

  // ---------------------------------------------------------------------
  // ToVector against its specification

  /** `ToVector` within a sufficient bound gives the elements and, if it is
      not the empty value, the final tail. */
  lemma {:induction false} ToVectorWithinChain(h: Heap, v: Value, n: nat, tail: Value, bound: nat)
    requires Wf(h) && ValueOk(v, h) && ChainTo(h, v, n, tail) && n <= bound
    ensures ToVectorWithin(h, v, bound) == Ok(Elements(h, v, n) + (if tail == Nil then [] else [tail]))
    decreases n
  {
    if n > 0 {
      var c := v.cell;
      var ext: seq<Value> := if tail == Nil then [] else [tail];
      ToVectorWithinChain(h, h.cells[c].second, n - 1, tail, bound - 1);
      assert ToVectorWithin(h, v, bound) == Ok([h.cells[c].first] + ToVectorWithin(h, h.cells[c].second, bound - 1).value);
      assert Elements(h, v, n) == [h.cells[c].first] + Elements(h, h.cells[c].second, n - 1);
      assert [h.cells[c].first] + Elements(h, h.cells[c].second, n - 1) + ext
          == [h.cells[c].first] + (Elements(h, h.cells[c].second, n - 1) + ext);
    } else {
      assert v == tail;
      assert Elements(h, v, 0) == [];
      if tail == Nil {
        assert ToVectorWithin(h, v, bound) == Ok([]);
        assert Elements(h, v, 0) + [] == [];
      } else {
        assert ToVectorWithin(h, v, bound) == Ok([v]);
        assert [] + [tail] == [tail];
      }
    }
  }

  /** `ToVector` maps the empty value to no elements, a proper list to its
      elements in order, and a chain ending in another non-pair to its
      elements followed by that tail (parser.cpp:146-162). */
  lemma ToVectorOfChain(h: Heap, v: Value, n: nat, tail: Value)
    requires Wf(h) && ValueOk(v, h) && ChainTo(h, v, n, tail)
    ensures ToVector(h, v) == Ok(Elements(h, v, n) + (if tail == Nil then [] else [tail]))
    ensures tail == Nil ==> ToVector(h, v) == Ok(Elements(h, v, n))
  {
    ChainFitsStore(h, v, n, tail);
    ToVectorWithinChain(h, v, n, tail, |h.cells|);
    assert Elements(h, v, n) + [] == Elements(h, v, n);
  }

  /** Conversely, `ToVector` fails only on a chain that never ends. */
  lemma {:induction false} ToVectorWithinFails(h: Heap, v: Value, bound: nat)
    requires Wf(h) && ValueOk(v, h) && ToVectorWithin(h, v, bound).Err?
    ensures Drop(h, v, bound).Some? && Drop(h, v, bound).value.Pair?
    decreases bound
  {
    if bound > 0 {
      ToVectorWithinFails(h, h.cells[v.cell].second, bound - 1);
    }
  }

  /** `ToVector` fails only on a cyclic chain: the chain does not end within
      any number of steps. */
  lemma ToVectorFailsOnlyOnCycles(h: Heap, v: Value, n: nat, tail: Value)
    requires Wf(h) && ValueOk(v, h) && ToVector(h, v).Err?
    ensures !ChainTo(h, v, n, tail)
  {
    if ChainTo(h, v, n, tail) {
      ToVectorOfChain(h, v, n, tail);
    }
  }
}
